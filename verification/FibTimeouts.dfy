/** How a commit gets along with timeouts: how often a command is sent again, when the
    sender gives up, and which responses let the commit succeed. */
module FibTimeouts {
  import opened Options
  import opened RibEntries
  import opened FibUpdaters
  import opened FibCommit

  /** How often a command for `u` timed out in a run. */
  function TimeoutsOf(s: Commit, rs: seq<(nat, Response)>, u: FibUpdate): nat {
    if rs == [] then 0
    else
      var s1 := Run(s, rs[..|rs| - 1]);
      var (i, resp) := rs[|rs| - 1];
      TimeoutsOf(s, rs[..|rs| - 1], u) +
      (if Enabled(s1, i) && resp.Timeout? && s1.inFlight[i].update == u then 1 else 0)
  }

  /** Some command of a run was answered with an error that is neither a timeout nor a missing face. */
  predicate Refused(s: Commit, rs: seq<(nat, Response)>) {
    rs != [] &&
    (Refused(s, rs[..|rs| - 1]) || (Enabled(Run(s, rs[..|rs| - 1]), rs[|rs| - 1].0) && rs[|rs| - 1].1.OtherError?))
  }

  // ------------------------------------------------------------------- the timeouts

  /** An update has been sent once, and once more for every timeout; the run goes on unless
      a command was refused or some update has timed out eleven times. */
  ghost predicate Tallied(s: Commit, refused: bool, count: FibUpdate -> nat) {
    && (!s.threw ==> !refused)
    && (!s.threw ==> forall u :: count(u) == (if s.sent[u] == 0 then 0 else s.sent[u] - 1))
    && (!s.threw ==> forall u :: u in s.retried <==> count(u) > 0)
    && (s.threw ==> forall u :: count(u) <= 11)
    && (s.threw ==> refused || exists u :: count(u) == 11)
  }

  lemma SentAgain(s: Commit, i: nat, executed: bool)
    requires Enabled(s, i) && s.inFlight[i].nTimeouts < 10
    ensures var s', u := Respond(s, i, Timeout(executed)), s.inFlight[i].update;
            && !s'.threw && s'.sent == s.sent + multiset{u} && s'.retried == s.retried + {u}
            && s'.inFlight == Others(s, i) + [Command(u, AddNextHop, s.inFlight[i].nTimeouts + 1)]
  {
  }

  lemma GivenUp(s: Commit, i: nat, executed: bool)
    requires Enabled(s, i) && s.inFlight[i].nTimeouts == 10
    ensures var s' := Respond(s, i, Timeout(executed)); s'.threw && s'.sent == s.sent
  {
  }

  /** Responses other than timeouts send nothing again. */
  lemma NotSentAgain(s: Commit, i: nat, resp: Response, faceId: FaceId, batch: seq<FibUpdate>,
                     nonBatch: seq<FibUpdate>)
    requires ProperLists(faceId, batch, nonBatch) && Structure(s, faceId, batch, nonBatch) && SendCounts(s)
    requires Enabled(s, i) && !resp.Timeout?
    ensures var s' := Respond(s, i, resp);
            && (s'.threw <==> resp.OtherError?) && s'.retried == s.retried
            && forall u :: s'.sent[u] == s.sent[u] || (s.sent[u] == 0 && s'.sent[u] == 1)
  {
    var s', u := Respond(s, i, resp), s.inFlight[i].update;
    FlyingListed(s, i, faceId, batch, nonBatch);
    assert Flying(s, u);
    PhaseOfFlying(s, u, faceId, batch, nonBatch);
    if s'.sent != s.sent {
      OtherListSent(s, s', nonBatch);
    }
  }

  lemma OtherListSent(s: Commit, s': Commit, nonBatch: seq<FibUpdate>)
    requires SendCounts(s) && s.batch != [] && s'.sent == s.sent + multiset(nonBatch)
    requires UniqueKeys(nonBatch) && forall u :: u in nonBatch ==> u.faceId != s.batchFaceId
    ensures forall u :: s'.sent[u] == s.sent[u] || (s.sent[u] == 0 && s'.sent[u] == 1)
  {
    forall u ensures s'.sent[u] == s.sent[u] || (s.sent[u] == 0 && s'.sent[u] == 1) {
      UniqueCounts(nonBatch, u);
      assert u in nonBatch ==> u !in s.sent;
    }
  }

  lemma RespondTallied(s: Commit, i: nat, resp: Response, faceId: FaceId, batch: seq<FibUpdate>,
                       nonBatch: seq<FibUpdate>, refused: bool, count: FibUpdate -> nat, count': FibUpdate -> nat)
    requires ProperLists(faceId, batch, nonBatch) && Structure(s, faceId, batch, nonBatch) && SendCounts(s)
    requires Enabled(s, i) && Tallied(s, refused, count)
    requires forall u :: count'(u) == count(u) + (if resp.Timeout? && s.inFlight[i].update == u then 1 else 0)
    ensures Tallied(Respond(s, i, resp), refused || resp.OtherError?, count')
  {
    var c := s.inFlight[i];
    if resp.Timeout? {
      if c.nTimeouts < 10 {
        SentAgain(s, i, resp.executed);
      } else {
        GivenUp(s, i, resp.executed);
        assert count'(c.update) == 11;
      }
    } else {
      NotSentAgain(s, i, resp, faceId, batch, nonBatch);
    }
  }

  lemma {:induction false} RunTallied(fib: Fib, faceId: FaceId, batch: seq<FibUpdate>, nonBatch: seq<FibUpdate>,
                                      rs: seq<(nat, Response)>)
    requires ProperLists(faceId, batch, nonBatch)
    ensures var s0 := Start(faceId, batch, nonBatch, fib);
            Tallied(Run(s0, rs), Refused(s0, rs), u => TimeoutsOf(s0, rs, u))
  {
    var s0 := Start(faceId, batch, nonBatch, fib);
    if rs == [] {
      StartSentOnce(fib, faceId, batch, nonBatch);
    } else {
      RunTallied(fib, faceId, batch, nonBatch, rs[..|rs| - 1]);
      OneMoreTallied(fib, faceId, batch, nonBatch, rs);
    }
  }

  lemma OneMoreTallied(fib: Fib, faceId: FaceId, batch: seq<FibUpdate>, nonBatch: seq<FibUpdate>,
                       rs: seq<(nat, Response)>)
    requires ProperLists(faceId, batch, nonBatch) && rs != []
    requires var s0 := Start(faceId, batch, nonBatch, fib);
             var init := rs[..|rs| - 1];
             Tallied(Run(s0, init), Refused(s0, init), u => TimeoutsOf(s0, init, u))
    ensures var s0 := Start(faceId, batch, nonBatch, fib);
            Tallied(Run(s0, rs), Refused(s0, rs), u => TimeoutsOf(s0, rs, u))
  {
    var s0 := Start(faceId, batch, nonBatch, fib);
    var init := rs[..|rs| - 1];
    var (i, resp) := rs[|rs| - 1];
    var s := Run(s0, init);
    var count, count' := u => TimeoutsOf(s0, init, u), u => TimeoutsOf(s0, rs, u);
    if Enabled(s, i) {
      assert Run(s0, rs) == Respond(s, i, resp) && (Refused(s0, rs) <==> Refused(s0, init) || resp.OtherError?);
      assert Tallied(Respond(s, i, resp), Refused(s0, init) || resp.OtherError?, count') by {
        RunInvariant(fib, faceId, batch, nonBatch, init);
        RespondTallied(s, i, resp, faceId, batch, nonBatch, Refused(s0, init), count, count');
      }
    } else {
      SameTally(s, Refused(s0, init), count, count');
    }
  }

  lemma SameTally(s: Commit, refused: bool, count: FibUpdate -> nat, count': FibUpdate -> nat)
    requires Tallied(s, refused, count) && forall u :: count'(u) == count(u)
    ensures Tallied(s, refused, count')
  {
  }

  lemma StartSentOnce(fib: Fib, faceId: FaceId, batch: seq<FibUpdate>, nonBatch: seq<FibUpdate>)
    requires ProperLists(faceId, batch, nonBatch)
    ensures var s0 := Start(faceId, batch, nonBatch, fib); !s0.threw && s0.retried == {} && forall u :: s0.sent[u] <= 1
  {
    forall u ensures Start(faceId, batch, nonBatch, fib).sent[u] <= 1 {
      UniqueCounts(batch, u);
      UniqueCounts(nonBatch, u);
    }
  }

  /** A command in flight was sent once more than it timed out, and is an ADD if it did. */
  ghost predicate SentCommands(s: Commit) {
    && (forall u :: s.sent[u] <= 11)
    && forall c :: c in s.inFlight ==>
         s.sent[c.update] == c.nTimeouts + 1
         && c.kind == if c.update in s.retried then AddNextHop else c.update.action
  }

  lemma CommandsInFlight(fib: Fib, faceId: FaceId, batch: seq<FibUpdate>, nonBatch: seq<FibUpdate>,
                         rs: seq<(nat, Response)>)
    requires ProperLists(faceId, batch, nonBatch)
    ensures SentCommands(Run(Start(faceId, batch, nonBatch, fib), rs))
  {
    RunInvariant(fib, faceId, batch, nonBatch, rs);
  }

  lemma Budget(s: Commit, refused: bool, count: FibUpdate -> nat, s0: Commit, rs: seq<(nat, Response)>)
    requires Tallied(s, refused, count) && SentCommands(s) && forall u :: count(u) == TimeoutsOf(s0, rs, u)
    ensures forall u :: TimeoutsOf(s0, rs, u) <= 11
    ensures s.threw <==> refused || exists u :: TimeoutsOf(s0, rs, u) == 11
    ensures !s.threw ==> forall c :: c in s.inFlight ==>
              && c.nTimeouts == TimeoutsOf(s0, rs, c.update)
              && c.kind == if c.nTimeouts == 0 then c.update.action else AddNextHop
  {
    if !s.threw {
      forall u ensures TimeoutsOf(s0, rs, u) <= 10 {
        assert count(u) == TimeoutsOf(s0, rs, u) && s.sent[u] <= 11;
      }
      assert !exists u :: TimeoutsOf(s0, rs, u) == 11;
    } else if !refused {
      var u :| count(u) == 11;
      assert TimeoutsOf(s0, rs, u) == 11;
      assert exists u :: TimeoutsOf(s0, rs, u) == 11;
    }
  }

  lemma BudgetOfRun(s0: Commit, rs: seq<(nat, Response)>)
    requires Tallied(Run(s0, rs), Refused(s0, rs), u => TimeoutsOf(s0, rs, u)) && SentCommands(Run(s0, rs))
    ensures var s := Run(s0, rs);
            && (forall u :: TimeoutsOf(s0, rs, u) <= 11)
            && (s.threw <==> Refused(s0, rs) || exists u :: TimeoutsOf(s0, rs, u) == 11)
            && (!s.threw ==> forall c :: c in s.inFlight ==>
                  && c.nTimeouts == TimeoutsOf(s0, rs, c.update)
                  && c.kind == if c.nTimeouts == 0 then c.update.action else AddNextHop)
  {
    Budget(Run(s0, rs), Refused(s0, rs), u => TimeoutsOf(s0, rs, u), s0, rs);
  }

  /** In every run no update times out more than eleven times; the sender gives up, with an
      exception, if and only if one has timed out eleven times or a command was refused.
      Until then a command in flight knows how often it timed out, and is an ADD after that. */
  lemma TimeoutBudget(fib: Fib, faceId: FaceId, batch: seq<FibUpdate>, nonBatch: seq<FibUpdate>,
                      rs: seq<(nat, Response)>)
    requires ProperLists(faceId, batch, nonBatch)
    ensures var s0 := Start(faceId, batch, nonBatch, fib);
            var s := Run(s0, rs);
            && (forall u :: TimeoutsOf(s0, rs, u) <= 11)
            && (s.threw <==> Refused(s0, rs) || exists u :: TimeoutsOf(s0, rs, u) == 11)
            && (!s.threw ==> forall c :: c in s.inFlight ==>
                  && c.nTimeouts == TimeoutsOf(s0, rs, c.update)
                  && c.kind == if c.nTimeouts == 0 then c.update.action else AddNextHop)
  {
    var s0 := Start(faceId, batch, nonBatch, fib);
    RunTallied(fib, faceId, batch, nonBatch, rs);
    CommandsInFlight(fib, faceId, batch, nonBatch, rs);
    BudgetOfRun(s0, rs);
  }

  lemma NextTimeout(s0: Commit, rs: seq<(nat, Response)>, i: nat, executed: bool)
    requires Tallied(Run(s0, rs), Refused(s0, rs), u => TimeoutsOf(s0, rs, u)) && SentCommands(Run(s0, rs))
    requires Enabled(Run(s0, rs), i)
    ensures var u := Run(s0, rs).inFlight[i].update;
            var rs' := rs + [(i, Timeout(executed))];
            var s', k := Run(s0, rs'), TimeoutsOf(s0, rs', u);
            && k == TimeoutsOf(s0, rs, u) + 1
            && if k <= 10 then !s'.threw && Command(u, AddNextHop, k) in s'.inFlight else k == 11 && s'.threw
  {
    var s := Run(s0, rs);
    var rs' := rs + [(i, Timeout(executed))];
    assert rs'[..|rs'| - 1] == rs;
    assert s.inFlight[i] in s.inFlight;
    BudgetOfRun(s0, rs);
    if s.inFlight[i].nTimeouts < 10 {
      SentAgain(s, i, executed);
    } else {
      GivenUp(s, i, executed);
    }
  }

  /** A timeout is followed by another attempt, an ADD, as long as the update has timed out
      at most ten times; the eleventh timeout ends the commit. */
  lemma TimeoutOutcome(fib: Fib, faceId: FaceId, batch: seq<FibUpdate>, nonBatch: seq<FibUpdate>,
                       rs: seq<(nat, Response)>, i: nat, executed: bool)
    requires ProperLists(faceId, batch, nonBatch)
    requires Enabled(Run(Start(faceId, batch, nonBatch, fib), rs), i)
    ensures var s0 := Start(faceId, batch, nonBatch, fib);
            var u := Run(s0, rs).inFlight[i].update;
            var rs' := rs + [(i, Timeout(executed))];
            var s', k := Run(s0, rs'), TimeoutsOf(s0, rs', u);
            && k == TimeoutsOf(s0, rs, u) + 1
            && if k <= 10 then !s'.threw && Command(u, AddNextHop, k) in s'.inFlight else k == 11 && s'.threw
  {
    var s0 := Start(faceId, batch, nonBatch, fib);
    RunTallied(fib, faceId, batch, nonBatch, rs);
    CommandsInFlight(fib, faceId, batch, nonBatch, rs);
    NextTimeout(s0, rs, i, executed);
  }

  // ------------------------------------------------------------------------ success

  predicate NoFaceMissing(rs: seq<(nat, Response)>) { forall x :: x in rs ==> !x.1.FaceNotFound? }

  predicate NoneRefused(rs: seq<(nat, Response)>) { forall x :: x in rs ==> !x.1.OtherError? }

  lemma {:induction false} NothingMissing(s: Commit, rs: seq<(nat, Response)>)
    requires NoFaceMissing(rs) && NoneRefused(rs)
    ensures Run(s, rs).missing == s.missing && Run(s, rs).nFailure == s.nFailure && !Refused(s, rs)
  {
    if rs != [] {
      var init, last := rs[..|rs| - 1], rs[|rs| - 1];
      assert last in rs && forall x :: x in init ==> x in rs;
      NothingMissing(s, init);
      if Enabled(Run(s, init), last.0) {
        RespondMissing(Run(s, init), last.0, last.1);
      }
    }
  }

  /** Every commit succeeds in which no command is left unanswered, no face is missing, no
      command is refused and no update times out more than ten times. Then an update was
      retried exactly if it timed out. */
  lemma CommitSucceeds(fib: Fib, faceId: FaceId, batch: seq<FibUpdate>, nonBatch: seq<FibUpdate>,
                       rs: seq<(nat, Response)>)
    requires ProperLists(faceId, batch, nonBatch) && NoFaceMissing(rs) && NoneRefused(rs)
    requires var s0 := Start(faceId, batch, nonBatch, fib);
             Run(s0, rs).inFlight == [] && forall u :: TimeoutsOf(s0, rs, u) <= 10
    ensures var s0 := Start(faceId, batch, nonBatch, fib);
            var s := Run(s0, rs);
            && s.nSuccess == 1 && s.nFailure == 0 && !s.threw && s.missing == {}
            && forall u :: u in s.retried <==> TimeoutsOf(s0, rs, u) > 0
  {
    var s0 := Start(faceId, batch, nonBatch, fib);
    NothingMissing(s0, rs);
    TimeoutBudget(fib, faceId, batch, nonBatch, rs);
    RunTallied(fib, faceId, batch, nonBatch, rs);
    CommitTermination(fib, faceId, batch, nonBatch, rs);
  }

  /** Every command in turn is answered at once, and carried out. */
  predicate AllDone(rs: seq<(nat, Response)>) { forall x :: x in rs ==> x == (0, Done) }

  lemma DoneProgress(s: Commit, faceId: FaceId, batch: seq<FibUpdate>, nonBatch: seq<FibUpdate>)
    requires ProperLists(faceId, batch, nonBatch) && Structure(s, faceId, batch, nonBatch) && Enabled(s, 0)
    ensures var s' := Respond(s, 0, Done);
            !s'.threw && |s'.batch| + |s'.nonBatch| < |s.batch| + |s.nonBatch|
  {
    FlyingListed(s, 0, faceId, batch, nonBatch);
    assert Flying(s, s.inFlight[0].update);
    PhaseOfFlying(s, s.inFlight[0].update, faceId, batch, nonBatch);
  }

  lemma {:induction false} DoneRun(fib: Fib, faceId: FaceId, batch: seq<FibUpdate>, nonBatch: seq<FibUpdate>,
                                   rs: seq<(nat, Response)>)
    requires ProperLists(faceId, batch, nonBatch) && AllDone(rs)
    ensures var s := Run(Start(faceId, batch, nonBatch, fib), rs);
            !s.threw && (s.inFlight == [] || |s.batch| + |s.nonBatch| + |rs| <= |batch| + |nonBatch|)
  {
    var s0 := Start(faceId, batch, nonBatch, fib);
    if rs != [] {
      var init, last := rs[..|rs| - 1], rs[|rs| - 1];
      assert last in rs && forall x :: x in init ==> x in rs;
      DoneRun(fib, faceId, batch, nonBatch, init);
      RunInvariant(fib, faceId, batch, nonBatch, init);
      if Enabled(Run(s0, init), 0) {
        DoneProgress(Run(s0, init), faceId, batch, nonBatch);
      }
    }
  }

  lemma {:induction false} DoneTimesNothingOut(s: Commit, rs: seq<(nat, Response)>, u: FibUpdate)
    requires AllDone(rs)
    ensures TimeoutsOf(s, rs, u) == 0
  {
    if rs != [] {
      var init, last := rs[..|rs| - 1], rs[|rs| - 1];
      assert last in rs && forall x :: x in init ==> x in rs;
      DoneTimesNothingOut(s, init, u);
    }
  }

  /** With one such answer for each update, or more, the commit succeeds and retries nothing. */
  lemma AllDoneSucceeds(fib: Fib, faceId: FaceId, batch: seq<FibUpdate>, nonBatch: seq<FibUpdate>,
                        rs: seq<(nat, Response)>)
    requires ProperLists(faceId, batch, nonBatch) && AllDone(rs) && |rs| >= |batch| + |nonBatch|
    ensures var s := Run(Start(faceId, batch, nonBatch, fib), rs);
            s.nSuccess == 1 && s.missing == {} && s.retried == {}
  {
    var s0 := Start(faceId, batch, nonBatch, fib);
    var s := Run(s0, rs);
    DoneRun(fib, faceId, batch, nonBatch, rs);
    RunInvariant(fib, faceId, batch, nonBatch, rs);
    if s.inFlight != [] {
      FlyingListed(s, 0, faceId, batch, nonBatch);
      assert false;
    }
    forall u ensures TimeoutsOf(s0, rs, u) == 0 {
      DoneTimesNothingOut(s0, rs, u);
    }
    CommitSucceeds(fib, faceId, batch, nonBatch, rs);
  }
}
