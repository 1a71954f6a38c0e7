/** What every event of a run does, in terms of the trace so far: what is sent, with which
    timeout and under which name, what is reported, and what is given up. */
module ConsumerEvents {
  import opened Options
  import opened Rtt
  import opened Consumers
  import opened ConsumerRuns

  // ------------------------------------------------------------------------- sending

  function Smaller(a: nat, b: nat): nat { if a < b then a else b }

  /** The timeout of a first transmission: the plain one for a name like the last, else
      the one by correlativity. */
  function FirstTimeout(cc: Settings, k: Correlativity, s: State, name: Name, same: bool): real {
    if same then RetransmitTimeout(cc.rtt, s.rtt) else RtoByCorrelativity(cc.rtt, s.rtt, k, name, s.now)
  }

  /** `s'` is `s` after the first transmission of the next number, under `name` and with the
      timeout `rto`. */
  ghost predicate SentFirst(s: State, s': State, name: Name, rto: real, purged: seq<Record>) {
    var q := s.nextSeq;
    && s'.trace == s.trace + [Sent(q, s.now, rto)]
    && s'.nextSeq == q + 1 && s'.now == s.now && s'.active == s.active && s'.retxSeqs == s.retxSeqs
    && q !in s.timeouts && s'.timeouts == s.timeouts[q := s.now + rto]
    && q !in s.fullDelay && s'.fullDelay == s.fullDelay[q := s.now] && s'.lastDelay == s.lastDelay[q := s.now]
    && q !in s.retxCounts && s'.retxCounts == s.retxCounts[q := 1]
    && s'.rtt == s.rtt.(history := purged + [Record(q, s.now, s.now, rto, false, name)])
  }

  /** A consumer sends if and only if it is active and its numbers are not used up. It then
      sends the next number, under the prefix with the number appended; a name unlike the
      last makes it forget the records older than three minutes. */
  lemma SendOutcome(cc: Settings, k: Correlativity, evs: seq<Event>, prefix: Name, same: bool)
    requires cc.rtt.Valid() && k.Valid()
    ensures var s := Run(cc, k, InitialState(cc), evs);
            var s' := Step(cc, k, s, Send(prefix, same));
            var name := prefix + [SeqNo(s.nextSeq)];
            if s.active && (cc.seqMax == 0xFFFF_FFFF || s.nextSeq < cc.seqMax)
            then SentFirst(s, s', name, FirstTimeout(cc, k, s, name, same),
                           if same then s.rtt.history else Purge(s.rtt.history, s.now, 180.0))
            else s' == s
  {
    RunKeeps(cc, k, evs);
    SendFromInvariant(cc, k, Run(cc, k, InitialState(cc), evs), prefix, same);
  }

  lemma SendFromInvariant(cc: Settings, k: Correlativity, s: State, prefix: Name, same: bool)
    requires cc.rtt.Valid() && k.Valid() && Inv(cc, s)
    ensures var s' := SendPacket(cc, k, s, prefix, same);
            var name := prefix + [SeqNo(s.nextSeq)];
            if s.active && (cc.seqMax == 0xFFFF_FFFF || s.nextSeq < cc.seqMax)
            then SentFirst(s, s', name, FirstTimeout(cc, k, s, name, same),
                           if same then s.rtt.history else Purge(s.rtt.history, s.now, 180.0))
            else s' == s
  {
    var q := s.nextSeq;
    assert SeqInv(cc, s, q);
    PurgeKeeps(s.rtt.history, s.now, THREE_MINUTES, q);
  }

  /** The timeout armed for a first transmission under a name like the last is that of an
      estimator that has taken the samples of the trace, with a multiplier doubled for every
      timeout that fired since the last sample, up to the largest. */
  lemma PlainFirstTimeout(cc: Settings, k: Correlativity, evs: seq<Event>, name: Name)
    requires cc.rtt.Valid()
    ensures var s := Run(cc, k, InitialState(cc), evs);
            var fired := TimeoutsSinceReset(BackoffEvents(cc, k, InitialState(cc), evs));
            FirstTimeout(cc, k, s, name, true) ==
            RetransmitTimeout(cc.rtt, MeasureAll(cc.rtt, Initial(cc.rtt), SamplesOf(s.trace)).(
                                      multiplier := Smaller(Pow2(fired), cc.rtt.maxMultiplier)))
  {
    var s := Run(cc, k, InitialState(cc), evs);
    var fired := TimeoutsSinceReset(BackoffEvents(cc, k, InitialState(cc), evs));
    var e := MeasureAll(cc.rtt, Initial(cc.rtt), SamplesOf(s.trace)).(
      multiplier := Smaller(Pow2(fired), cc.rtt.maxMultiplier));
    EstimatorOfRun(cc, k, evs);
    assert RetransmitTimeout(cc.rtt, s.rtt.(history := [])) == RetransmitTimeout(cc.rtt, e.(history := []));
    HistoryIrrelevant(cc.rtt, s.rtt);
    HistoryIrrelevant(cc.rtt, e);
  }

  lemma HistoryIrrelevant(c: Config, e: Estimator)
    ensures RetransmitTimeout(c, e) == RetransmitTimeout(c, e.(history := []))
  {
  }

  // ------------------------------------------------------------------------ timeouts

  /** Only the record of `q` has changed, to `rec`. */
  ghost predicate OnlyRecord(h: seq<Record>, h': seq<Record>, q: nat, rec: Option<Record>) {
    DistinctSeqs(h') && forall p :: RecordOf(h', p) == if p == q then rec else RecordOf(h, p)
  }

  /** The same for all that a timeout of `q` leaves alone. */
  ghost predicate BackedOff(cc: Settings, s: State, s': State) {
    && s'.now == s.now && s'.nextSeq == s.nextSeq && s'.active == s.active
    && s'.rtt.estimate == s.rtt.estimate && s'.rtt.variance == s.rtt.variance && s'.rtt.nSamples == s.rtt.nSamples
    && s'.rtt.multiplier == Smaller(2 * s.rtt.multiplier, cc.rtt.maxMultiplier)
  }

  /** `q` is sent again, with twice its last timeout, up to the maximum. */
  ghost predicate SentAgain(cc: Settings, s: State, s': State, q: nat) {
    var l, rec := SentOf(s.trace, q), RecordOf(s.rtt.history, q);
    l != [] && rec.Some? &&
    var rto := Min(cc.rtt.maxRto, l[|l| - 1].1 * 2.0);
    && s'.trace == s.trace + [Sent(q, s.now, rto)] && s'.timeouts == s.timeouts[q := s.now + rto]
    && s'.fullDelay == s.fullDelay && s'.lastDelay == s.lastDelay[q := s.now]
    && s'.retxCounts == s.retxCounts[q := |l| + 1] && s'.retxSeqs == s.retxSeqs + {q}
    && OnlyRecord(s.rtt.history, s'.rtt.history, q, Some(rec.value.(retx := true, rto := rto)))
  }

  /** Nothing but the deadline of `q` goes. */
  ghost predicate LeftUnsent(s: State, s': State, q: nat) {
    && s'.trace == s.trace && s'.timeouts == s.timeouts - {q}
    && s'.fullDelay == s.fullDelay && s'.lastDelay == s.lastDelay
    && s'.retxCounts == s.retxCounts && s'.retxSeqs == s.retxSeqs + {q} && s'.rtt.history == s.rtt.history
  }

  /** `q` is forgotten. */
  ghost predicate GivenUp(s: State, s': State, q: nat) {
    && s'.trace == s.trace && s'.timeouts == s.timeouts - {q}
    && s'.fullDelay == s.fullDelay - {q} && s'.lastDelay == s.lastDelay - {q}
    && s'.retxCounts == s.retxCounts - {q} && s'.retxSeqs == s.retxSeqs
    && OnlyRecord(s.rtt.history, s'.rtt.history, q, None)
  }

  /** A number that times out is sent again if it was sent fewer than `retxNum` times and its
      record is still there; without the record it is left unsent; otherwise it is given up.
      The multiplier doubles in any case. */
  lemma TimeoutOutcome(cc: Settings, k: Correlativity, evs: seq<Event>, q: nat, same: bool)
    requires cc.rtt.Valid() && k.Valid() && Due(Run(cc, k, InitialState(cc), evs), q)
    ensures var s := Run(cc, k, InitialState(cc), evs);
            var s' := Step(cc, k, s, Timeout(q, same));
            && BackedOff(cc, s, s')
            && if |SentOf(s.trace, q)| >= cc.retxNum then GivenUp(s, s', q)
               else if RecordOf(s.rtt.history, q).Some? then SentAgain(cc, s, s', q)
               else LeftUnsent(s, s', q)
  {
    RunKeeps(cc, k, evs);
    TimeoutFromInvariant(cc, k, Run(cc, k, InitialState(cc), evs), q, same);
  }

  lemma TimeoutFromInvariant(cc: Settings, k: Correlativity, s: State, q: nat, same: bool)
    requires cc.rtt.Valid() && k.Valid() && Inv(cc, s) && q in s.timeouts
    ensures var s' := OnTimeout(cc, k, s.(timeouts := s.timeouts - {q}), q, same);
            && BackedOff(cc, s, s')
            && if |SentOf(s.trace, q)| >= cc.retxNum then GivenUp(s, s', q)
               else if RecordOf(s.rtt.history, q).Some? then SentAgain(cc, s, s', q)
               else LeftUnsent(s, s', q)
  {
    assert SeqInv(cc, s, q);
    if |SentOf(s.trace, q)| >= cc.retxNum {
      TimeoutGivesUp(cc, k, s, q, same);
    } else {
      TimeoutMeaning(cc, k, s, q, same);
      MarkKeeps(s.rtt.history, q, q);
      if RecordOf(s.rtt.history, q).Some? {
        TimeoutSends(cc, k, s, q, same);
      } else {
        TimeoutLeaves(cc, k, s, q, same);
      }
    }
  }

  lemma TimeoutGivesUp(cc: Settings, k: Correlativity, s: State, q: nat, same: bool)
    requires Inv(cc, s) && q in s.timeouts && |SentOf(s.trace, q)| >= cc.retxNum
    ensures var s' := OnTimeout(cc, k, s.(timeouts := s.timeouts - {q}), q, same);
            BackedOff(cc, s, s') && GivenUp(s, s', q)
  {
    assert SeqInv(cc, s, q);
    assert s.timeouts - {q} - {q} == s.timeouts - {q};
    forall p ensures RecordOf(Discard(s.rtt.history, q), p) == if p == q then None else RecordOf(s.rtt.history, p)
             ensures DistinctSeqs(Discard(s.rtt.history, q)) {
      DiscardKeeps(s.rtt.history, q, p);
    }
  }

  lemma TimeoutLeaves(cc: Settings, k: Correlativity, s: State, q: nat, same: bool)
    requires Inv(cc, s) && q in s.timeouts && |SentOf(s.trace, q)| < cc.retxNum && RecordOf(s.rtt.history, q).None?
    ensures var s' := OnTimeout(cc, k, s.(timeouts := s.timeouts - {q}), q, same);
            BackedOff(cc, s, s') && LeftUnsent(s, s', q)
  {
    assert SeqInv(cc, s, q);
    TimeoutMeaning(cc, k, s, q, same);
  }

  lemma TimeoutSends(cc: Settings, k: Correlativity, s: State, q: nat, same: bool)
    requires cc.rtt.Valid() && k.Valid() && Inv(cc, s) && q in s.timeouts
    requires |SentOf(s.trace, q)| < cc.retxNum && RecordOf(s.rtt.history, q).Some?
    ensures var s' := OnTimeout(cc, k, s.(timeouts := s.timeouts - {q}), q, same);
            BackedOff(cc, s, s') && SentAgain(cc, s, s', q)
  {
    assert SeqInv(cc, s, q);
    var l := SentOf(s.trace, q);
    var rto := Min(cc.rtt.maxRto, l[|l| - 1].1 * 2.0);
    var name := GetName(Marked(cc, s, q).rtt.history, q);
    RetransmissionArmed(cc, k, s, q, same, rto);
    TimeoutMeaning(cc, k, s, q, same);
    TransmitMeaning(cc, k, Marked(cc, s, q), q, name, same, rto, Marked(cc, s, q).rtt);
    ResentState(cc, s, OnTimeout(cc, k, s.(timeouts := s.timeouts - {q}), q, same), q, name, rto);
  }

  lemma ResentState(cc: Settings, s: State, s': State, q: nat, name: Name, rto: real)
    requires Inv(cc, s) && q in s.timeouts && RecordOf(s.rtt.history, q).Some?
    requires rto == Min(cc.rtt.maxRto, RecordOf(s.rtt.history, q).value.rto * 2.0)
    requires var s2 := Marked(cc, s, q);
             s' == s2.(fullDelay := InsertUnique(s2.fullDelay, q, s2.now), lastDelay := s2.lastDelay[q := s2.now],
                       retxCounts := s2.retxCounts[q := CountOf(s2.retxCounts, q) + 1],
                       timeouts := InsertUnique(s2.timeouts, q, s2.now + rto),
                       rtt := s2.rtt.(history := SetInterestInfo(s2.rtt.history, name, q, s2.now, rto)),
                       trace := s2.trace + [Sent(q, s2.now, rto)])
    ensures BackedOff(cc, s, s') && SentAgain(cc, s, s', q)
  {
    assert SeqInv(cc, s, q);
    HistoryAfter(s.rtt.history, name, q, s.now, rto);
    assert (s.timeouts - {q})[q := s.now + rto] == s.timeouts[q := s.now + rto];
  }

  lemma RetransmissionArmed(cc: Settings, k: Correlativity, s: State, q: nat, same: bool, rto: real)
    requires cc.rtt.Valid() && k.Valid() && Inv(cc, s) && q in s.timeouts && RecordOf(s.rtt.history, q).Some?
    requires rto == Min(cc.rtt.maxRto, RecordOf(s.rtt.history, q).value.rto * 2.0)
    ensures var s2 := Marked(cc, s, q);
            var name := GetName(s2.rtt.history, q);
            name != [] && ArmRto(cc, k, s2.rtt, q, name, same, s.now) == (rto, s2.rtt)
  {
    assert SeqInv(cc, s, q);
    MarkKeeps(s.rtt.history, q, q);
    ArmRtoPositive(cc, k, Marked(cc, s, q).rtt, q, GetName(Marked(cc, s, q).rtt.history, q), same, s.now);
  }

  lemma HistoryAfter(h: seq<Record>, name: Name, q: nat, now: real, rto: real)
    requires DistinctSeqs(h) && RecordOf(h, q).Some?
    ensures OnlyRecord(h, SetInterestInfo(SetRetransmit(h, q), name, q, now, rto), q,
                       Some(RecordOf(h, q).value.(retx := true, rto := rto)))
  {
    var h2 := SetRetransmit(h, q);
    MarkKeeps(h, q, q);
    forall p
      ensures DistinctSeqs(SetInterestInfo(h2, name, q, now, rto))
      ensures RecordOf(SetInterestInfo(h2, name, q, now, rto), p) ==
              if p == q then Some(RecordOf(h, q).value.(retx := true, rto := rto)) else RecordOf(h, p)
    {
      MarkKeeps(h, q, p);
      StoreKeeps(h2, name, q, now, rto, p);
    }
  }

  // ---------------------------------------------------------------------------- Data

  /** Data for `q` is reported with the times since the last and the first transmission of
      `q` and their number, if they are on record; then everything about `q` is cleared, but for a record that
      was never marked as retransmitted: its time since the first transmission is a sample,
      and it is kept as received now. */
  ghost predicate Delivers(cc: Settings, s: State, s': State, q: nat) {
    var l, rec := SentOf(s.trace, q), RecordOf(s.rtt.history, q);
    var known, sampled := q in s.retxCounts && l != [], rec.Some? && !rec.value.retx && l != [];
    var report := if known then Delivered(q, Some(s.now - l[|l| - 1].0), Some(s.now - l[0].0), |l|)
                  else Delivered(q, None, None, 0);
    && (q in s.retxCounts ==> l != []) && (rec.Some? ==> l != [])
    && s'.trace == s.trace + [report] + (if sampled then [Sampled(q, s.now - l[0].0)] else [])
    && s'.now == s.now && s'.nextSeq == s.nextSeq && s'.active == s.active
    && s'.timeouts == s.timeouts - {q} && s'.retxCounts == s.retxCounts - {q} && s'.retxSeqs == s.retxSeqs - {q}
    && s'.fullDelay == s.fullDelay - {q} && s'.lastDelay == s.lastDelay - {q}
    && OnlyRecord(s.rtt.history, s'.rtt.history, q, if sampled then Some(rec.value.(rcvAt := s.now)) else None)
    && (!sampled ==> s'.rtt == s.rtt.(history := s'.rtt.history))
    && (sampled ==> s'.rtt == Measure(cc.rtt, s.rtt, s.now - l[0].0).(multiplier := 1, history := s'.rtt.history))
  }

  lemma DataOutcome(cc: Settings, k: Correlativity, evs: seq<Event>, q: nat)
    requires cc.rtt.Valid() && k.Valid()
    ensures var s := Run(cc, k, InitialState(cc), evs);
            var s' := Step(cc, k, s, Data(q));
            if s.active then Delivers(cc, s, s', q) else s' == s
  {
    RunKeeps(cc, k, evs);
    DataFromInvariant(cc, Run(cc, k, InitialState(cc), evs), q);
  }

  lemma DataFromInvariant(cc: Settings, s: State, q: nat)
    requires Inv(cc, s)
    ensures if s.active then Delivers(cc, s, OnData(cc, s, q), q) else OnData(cc, s, q) == s
  {
    DelaysRecorded(cc, s, q);
    AckedHistory(cc.rtt, s.rtt, q, s.now);
    AckMeaning(cc.rtt, s.rtt, q, s.now);
  }

  lemma DelaysRecorded(cc: Settings, s: State, q: nat)
    requires Inv(cc, s)
    ensures var l, rec := SentOf(s.trace, q), RecordOf(s.rtt.history, q);
            && DistinctSeqs(s.rtt.history)
            && (rec.Some? ==> l != [] && rec.value.sentAt == l[0].0)
            && (q in s.retxCounts ==>
                  && l != [] && Since(s.lastDelay, q, s.now) == Some(s.now - l[|l| - 1].0)
                  && Since(s.fullDelay, q, s.now) == Some(s.now - l[0].0))
            && CountOf(s.retxCounts, q) == (if q in s.retxCounts then |l| else 0)
            && (q !in s.retxCounts ==> Since(s.lastDelay, q, s.now) == Since(s.fullDelay, q, s.now) == None)
  {
    assert SeqInv(cc, s, q);
  }

  lemma AckedHistory(c: Config, e: Estimator, q: nat, now: real)
    requires DistinctSeqs(e.history)
    ensures var rec := RecordOf(e.history, q);
            OnlyRecord(e.history, Ack(c, e, q, now).0.history, q,
                       if rec.Some? && !rec.value.retx then Some(rec.value.(rcvAt := now)) else None)
  {
    forall p
      ensures DistinctSeqs(Ack(c, e, q, now).0.history)
      ensures RecordOf(Ack(c, e, q, now).0.history, p) ==
              if p != q || RecordOf(e.history, q).None? then RecordOf(e.history, p)
              else if RecordOf(e.history, q).value.retx then None
              else Some(RecordOf(e.history, q).value.(rcvAt := now))
    {
      AckKeeps(c, e, q, now, p);
    }
  }

  // ------------------------------------------------------------- the numbers of a run

  /** The numbers transmitted are those below the next one, which is within the limit. */
  ghost predicate NumbersSent(cc: Settings, s: State) {
    && (cc.seqMax == 0xFFFF_FFFF || s.nextSeq <= cc.seqMax)
    && forall q: nat :: SentOf(s.trace, q) != [] <==> q < s.nextSeq
  }

  /** An event sends at most one Interest: the next number, or one sent before. */
  lemma StepSends(cc: Settings, k: Correlativity, s: State, ev: Event)
    requires cc.rtt.Valid() && k.Valid() && Inv(cc, s)
    ensures var s' := Step(cc, k, s, ev);
            || (s'.nextSeq == s.nextSeq && forall q :: SentOf(s'.trace, q) == SentOf(s.trace, q))
            || (exists q, rto :: SentOf(s.trace, q) != [] && s'.nextSeq == s.nextSeq
                                 && s'.trace == s.trace + [Sent(q, s.now, rto)])
            || (exists rto :: s'.nextSeq == s.nextSeq + 1 && s'.trace == s.trace + [Sent(s.nextSeq, s.now, rto)]
                              && (cc.seqMax == 0xFFFF_FFFF || s.nextSeq < cc.seqMax))
  {
    match ev
    case Send(prefix, same) =>
      SendFromInvariant(cc, k, s, prefix, same);
    case Data(p) =>
      if s.active {
        forall q ensures SentOf(OnData(cc, s, p).trace, q) == SentOf(s.trace, q) {
          DataTrace(cc, s, p, q);
        }
      }
    case Timeout(p, same) =>
      if Due(s, p) {
        TimeoutFromInvariant(cc, k, s, p, same);
      }
    case _ =>
  }

  lemma StepNumbers(cc: Settings, k: Correlativity, s: State, ev: Event)
    requires cc.rtt.Valid() && k.Valid() && Inv(cc, s) && NumbersSent(cc, s)
    ensures NumbersSent(cc, Step(cc, k, s, ev))
  {
    var s' := Step(cc, k, s, ev);
    StepSends(cc, k, s, ev);
    if p, rto :| s'.trace == s.trace + [Sent(p, s.now, rto)] {
      forall q: nat ensures SentOf(s'.trace, q) != [] <==> SentOf(s.trace, q) != [] || q == p {
        Appended(s.trace, Sent(p, s.now, rto), q);
      }
    }
  }

  /** In every run the numbers transmitted are exactly those from zero to below the next one,
      none of them at or beyond the limit, if there is one. */
  lemma {:induction false} NumbersOfRun(cc: Settings, k: Correlativity, evs: seq<Event>)
    requires cc.rtt.Valid() && k.Valid()
    ensures NumbersSent(cc, Run(cc, k, InitialState(cc), evs))
  {
    if evs != [] {
      NumbersOfRun(cc, k, evs[..|evs| - 1]);
      RunKeeps(cc, k, evs[..|evs| - 1]);
      StepNumbers(cc, k, Run(cc, k, InitialState(cc), evs[..|evs| - 1]), evs[|evs| - 1]);
    }
  }

  lemma {:induction false} SentMeaning(tr: seq<Trace>, q: nat)
    ensures SentOf(tr, q) != [] <==> exists i :: 0 <= i < |tr| && tr[i].Sent? && tr[i].q == q
  {
    if tr != [] {
      var init := tr[..|tr| - 1];
      SentMeaning(init, q);
      assert forall i :: 0 <= i < |init| ==> init[i] == tr[i];
    }
  }

  /** Every transmission of a trace is of a number within the limit, so with a limit of zero
      nothing is ever sent. */
  lemma SentWithinLimit(cc: Settings, k: Correlativity, evs: seq<Event>, i: nat)
    requires cc.rtt.Valid() && k.Valid()
    requires var tr := Run(cc, k, InitialState(cc), evs).trace; i < |tr| && tr[i].Sent?
    ensures cc.seqMax == 0xFFFF_FFFF || Run(cc, k, InitialState(cc), evs).trace[i].q < cc.seqMax
  {
    var s := Run(cc, k, InitialState(cc), evs);
    NumbersOfRun(cc, k, evs);
    SentMeaning(s.trace, s.trace[i].q);
  }
}
