/** Theorems over whole runs of the consumer that look beyond one event: numbers that are
    stranded, and the estimator as a function of what happened. */
module ConsumerRuns {
  import opened Options
  import opened Rtt
  import opened Consumers

  // ------------------------------------------------------------- stranded numbers

  /** Transmitted, still counted, but with neither a deadline nor a record. */
  predicate Stranded(s: State, q: nat) {
    q < s.nextSeq && q in s.retxCounts && q !in s.timeouts && RecordOf(s.rtt.history, q).None?
  }

  /** What a transmission of another number leaves of `q`. */
  lemma TransmitOther(cc: Settings, k: Correlativity, s: State, p: nat, name: Name, same: bool, q: nat)
    requires p != q && DistinctSeqs(s.rtt.history)
    ensures var s' := Transmit(cc, k, s, p, name, same);
            && SentOf(s'.trace, q) == SentOf(s.trace, q)
            && (RecordOf(s.rtt.history, q).None? ==> RecordOf(s'.rtt.history, q).None?)
            && SameEntry(s.timeouts, s'.timeouts, q) && SameEntry(s.retxCounts, s'.retxCounts, q)
            && s'.nextSeq == s.nextSeq
  {
    TransmitKeepsOther(cc, k, s, p, name, same, q);
  }

  lemma TimeoutOther(cc: Settings, k: Correlativity, s: State, p: nat, same: bool, q: nat)
    requires cc.rtt.Valid() && Inv(cc, s) && p in s.timeouts && p != q
    ensures var s' := OnTimeout(cc, k, s.(timeouts := s.timeouts - {p}), p, same);
            && SentOf(s'.trace, q) == SentOf(s.trace, q)
            && (RecordOf(s.rtt.history, q).None? ==> RecordOf(s'.rtt.history, q).None?)
            && SameEntry(s.timeouts, s'.timeouts, q) && SameEntry(s.retxCounts, s'.retxCounts, q)
            && s'.nextSeq == s.nextSeq
  {
    if CountOf(s.retxCounts, p) < cc.retxNum {
      TimeoutMeaning(cc, k, s, p, same);
      TimeoutReady(cc, s, Marked(cc, s, p), p);
      var name := GetName(Marked(cc, s, p).rtt.history, p);
      if name != [] {
        TransmitOther(cc, k, Marked(cc, s, p), p, name, same, q);
      }
    } else {
      DiscardKeeps(s.rtt.history, p, q);
    }
  }

  /** A number without a record is not transmitted on its timeout. */
  lemma TimeoutWithoutRecord(cc: Settings, k: Correlativity, s: State, q: nat, same: bool)
    requires cc.rtt.Valid() && Inv(cc, s) && q in s.timeouts && RecordOf(s.rtt.history, q).None?
    ensures var s' := OnTimeout(cc, k, s.(timeouts := s.timeouts - {q}), q, same);
            && s'.trace == s.trace && s'.nextSeq == s.nextSeq && q !in s'.timeouts
            && RecordOf(s'.rtt.history, q).None?
            && (q in s'.retxCounts <==> CountOf(s.retxCounts, q) < cc.retxNum)
  {
    MarkKeeps(s.rtt.history, q, q);
    DiscardKeeps(s.rtt.history, q, q);
    if CountOf(s.retxCounts, q) < cc.retxNum {
      TimeoutMeaning(cc, k, s, q, same);
    }
  }

  /** A purged record is never created again, and its number is never sent again. */
  lemma NoRecordStays(cc: Settings, k: Correlativity, s: State, ev: Event, q: nat)
    requires cc.rtt.Valid() && Inv(cc, s) && q < s.nextSeq && RecordOf(s.rtt.history, q).None?
    ensures var s' := Step(cc, k, s, ev);
            && q < s'.nextSeq && RecordOf(s'.rtt.history, q).None?
            && SentOf(s'.trace, q) == SentOf(s.trace, q)
  {
    match ev
    case Advance(_) =>
    case Activate(_) =>
    case Send(prefix, same) =>
      if MaySend(cc, s) {
        SendReady(cc, s);
        TransmitOther(cc, k, s.(nextSeq := s.nextSeq + 1), s.nextSeq, prefix + [SeqNo(s.nextSeq)], same, q);
      }
    case Data(p) =>
      if s.active {
        AckKeeps(cc.rtt, s.rtt, p, s.now, q);
        DataTrace(cc, s, p, q);
      }
    case Timeout(p, same) =>
      if Due(s, p) {
        if p == q {
          TimeoutWithoutRecord(cc, k, s, q, same);
        } else {
          TimeoutOther(cc, k, s, p, same, q);
        }
      }
  }

  lemma {:induction false} NoRecordForever(cc: Settings, k: Correlativity, s: State, evs: seq<Event>, q: nat)
    requires cc.rtt.Valid() && k.Valid() && Inv(cc, s) && q < s.nextSeq && RecordOf(s.rtt.history, q).None?
    ensures var s' := Run(cc, k, s, evs);
            && Inv(cc, s') && q < s'.nextSeq && RecordOf(s'.rtt.history, q).None?
            && SentOf(s'.trace, q) == SentOf(s.trace, q)
  {
    if evs != [] {
      var s1 := Run(cc, k, s, evs[..|evs| - 1]);
      NoRecordForever(cc, k, s, evs[..|evs| - 1], q);
      StepKeeps(cc, k, s1, evs[|evs| - 1]);
      NoRecordStays(cc, k, s1, evs[|evs| - 1], q);
    }
  }

  lemma StrandedStays(cc: Settings, k: Correlativity, s: State, ev: Event, q: nat)
    requires cc.rtt.Valid() && Inv(cc, s) && Stranded(s, q) && ev != Data(q)
    ensures Stranded(Step(cc, k, s, ev), q)
  {
    NoRecordStays(cc, k, s, ev, q);
    match ev
    case Send(prefix, same) =>
      if MaySend(cc, s) {
        SendReady(cc, s);
        TransmitOther(cc, k, s.(nextSeq := s.nextSeq + 1), s.nextSeq, prefix + [SeqNo(s.nextSeq)], same, q);
      }
    case Timeout(p, same) =>
      if Due(s, p) {
        TimeoutOther(cc, k, s, p, same, q);
      }
    case _ =>
  }

  /** Once stranded, a number stays stranded as long as no Data for it arrives: it is
      neither sent again nor given up, in any continuation of the run. */
  lemma {:induction false} StrandedForever(cc: Settings, k: Correlativity, s: State, evs: seq<Event>, q: nat)
    requires cc.rtt.Valid() && k.Valid() && Inv(cc, s) && Stranded(s, q)
    requires forall ev :: ev in evs ==> ev != Data(q)
    ensures Inv(cc, Run(cc, k, s, evs)) && Stranded(Run(cc, k, s, evs), q)
    ensures SentOf(Run(cc, k, s, evs).trace, q) == SentOf(s.trace, q)
  {
    if evs != [] {
      var init, s1 := evs[..|evs| - 1], Run(cc, k, s, evs[..|evs| - 1]);
      assert evs[|evs| - 1] in evs && forall ev :: ev in init ==> ev in evs;
      StrandedForever(cc, k, s, init, q);
      StepKeeps(cc, k, s1, evs[|evs| - 1]);
      NoRecordStays(cc, k, s1, evs[|evs| - 1], q);
      StrandedStays(cc, k, s1, evs[|evs| - 1], q);
    }
  }

  /** Exactly when a timeout strands its number: it is allowed another transmission,
      but its record has been purged. */
  lemma TimeoutStrands(cc: Settings, k: Correlativity, s: State, q: nat, same: bool)
    requires cc.rtt.Valid() && k.Valid() && Inv(cc, s) && Due(s, q)
    ensures Stranded(Step(cc, k, s, Timeout(q, same)), q)
            <==> CountOf(s.retxCounts, q) < cc.retxNum && RecordOf(s.rtt.history, q).None?
  {
    assert SeqInv(cc, s, q);
    if RecordOf(s.rtt.history, q).None? {
      TimeoutWithoutRecord(cc, k, s, q, same);
    } else if CountOf(s.retxCounts, q) < cc.retxNum {
      TimeoutMeaning(cc, k, s, q, same);
      MarkKeeps(s.rtt.history, q, q);
    } else {
      DiscardKeeps(s.rtt.history, q, q);
    }
  }

  const SLOW := Settings(Config(10.0, 200.0, 64, 0.125, 0.25, 190.0), UNLIMITED, 8)

  /** Number 0 has been sent with a timeout of 190 seconds, and 185 of them have passed. */
  lemma FirstSent(k: Correlativity)
    ensures var s := Run(SLOW, k, InitialState(SLOW), [Activate(true), Send([], true), Advance(185.0)]);
            && s == InitialState(SLOW).(
                 now := 185.0, nextSeq := 1, active := true, timeouts := map[0 := 190.0], fullDelay := map[0 := 0.0],
                 lastDelay := map[0 := 0.0], retxCounts := map[0 := 1], trace := [Sent(0, 0.0, 190.0)],
                 rtt := Estimator(190.0, 0.0, 0, 1, [Record(0, 0.0, 0.0, 190.0, false, [SeqNo(0)])]))
  {
    var evs := [Activate(true), Send([], true), Advance(185.0)];
    var s0 := InitialState(SLOW);
    assert evs[..2] == [Activate(true), Send([], true)] && evs[..2][..1] == [Activate(true)] && evs[..1][..0] == [];
    assert Run(SLOW, k, s0, evs[..1]) == s0.(active := true);
    var s1 := Step(SLOW, k, s0.(active := true), Send([], true));
    assert Run(SLOW, k, s0, evs[..2]) == s1;
    assert RetransmitTimeout(SLOW.rtt, s0.rtt) == 190.0;
    assert [] + [SeqNo(0)] == [SeqNo(0)];
    assert s1.timeouts == map[0 := 190.0];
  }

  lemma SecondTimeout(k: Correlativity, e: Estimator, rec: Record)
    requires rec == Record(0, 0.0, 0.0, 190.0, false, [SeqNo(0)]) && e == Estimator(190.0, 0.0, 0, 1, [rec])
    ensures ArmRto(SLOW, k, e, 1, [SeqNo(1)], false, 185.0) == (190.0, e.(history := []))
  {
    assert [rec][..0] == [];
    assert Purge([rec], 185.0, THREE_MINUTES) == [];
    assert GetRetransRto(SLOW.rtt, [rec], 1) == 0.0;
  }

  /** Sending number 1 then purges the record of number 0. */
  lemma SecondSent(k: Correlativity, s: State)
    requires s == Run(SLOW, k, InitialState(SLOW), [Activate(true), Send([], true), Advance(185.0)])
    ensures var s' := SendPacket(SLOW, k, s, [], false);
            && s'.now == 185.0 && s'.nextSeq == 2 && s'.timeouts == map[0 := 190.0, 1 := 375.0]
            && s'.retxCounts == map[0 := 1, 1 := 1]
            && s'.rtt.history == [Record(1, 185.0, 185.0, 190.0, false, [SeqNo(1)])]
  {
    FirstSent(k);
    var rec := Record(0, 0.0, 0.0, 190.0, false, [SeqNo(0)]);
    assert [] + [SeqNo(1)] == [SeqNo(1)];
    assert GetName([rec], 1) == [];
    SecondTimeout(k, s.rtt, rec);
  }

  /** A run that strands number 0: its timeout is 190 seconds; number 1, sent after 185
      seconds, purges the record of number 0, which then times out. */
  lemma StrandingRun(k: Correlativity)
    ensures var evs := [Activate(true), Send([], true), Advance(185.0), Send([], false), Advance(5.0)];
            var s := Run(SLOW, k, InitialState(SLOW), evs);
            && SLOW.rtt.Valid() && Due(s, 0) && CountOf(s.retxCounts, 0) < SLOW.retxNum
            && Stranded(Step(SLOW, k, s, Timeout(0, true)), 0)
  {
    var evs := [Activate(true), Send([], true), Advance(185.0), Send([], false), Advance(5.0)];
    var s0 := InitialState(SLOW);
    assert evs[..4][..3] == [Activate(true), Send([], true), Advance(185.0)];
    var s3 := Run(SLOW, k, s0, evs[..4][..3]);
    SecondSent(k, s3);
    var s4 := SendPacket(SLOW, k, s3, [], false);
    assert Run(SLOW, k, s0, evs[..4]) == s4;
    var s5 := s4.(now := 190.0);
    assert Run(SLOW, k, s0, evs) == s5;
  }

  // ------------------------------------------------------- the estimator over a run

  /** The samples of a trace. */
  function SamplesOf(tr: seq<Trace>): seq<real> {
    if tr == [] then []
    else
      var init, last := SamplesOf(tr[..|tr| - 1]), tr[|tr| - 1];
      if last.Sampled? then init + [last.rtt] else init
  }

  /** The timeouts that fire and the samples that are taken in a run, in order. */
  function BackoffEvents(cc: Settings, k: Correlativity, s: State, evs: seq<Event>): seq<MultiplierEvent>
    decreases |evs|
  {
    if evs == [] then []
    else
      var rest := BackoffEvents(cc, k, s, evs[..|evs| - 1]);
      var s1 := Run(cc, k, s, evs[..|evs| - 1]);
      match evs[|evs| - 1]
      case Timeout(q, _) => if Due(s1, q) then rest + [TimedOut] else rest
      case Data(q) => if s1.active && Ack(cc.rtt, s1.rtt, q, s1.now).1.Some? then rest + [ValidSample] else rest
      case _ => rest
  }

  /** Apart from the history and the multiplier the two estimators are the same. */
  predicate SameEstimate(a: Estimator, b: Estimator) {
    a.estimate == b.estimate && a.variance == b.variance && a.nSamples == b.nSamples
  }

  lemma MeasureSame(c: Config, a: Estimator, b: Estimator, m: real)
    requires SameEstimate(a, b)
    ensures SameEstimate(Measure(c, a, m), Measure(c, b, m))
  {
  }

  lemma SamplesAppended(tr: seq<Trace>, ev: Trace)
    ensures SamplesOf(tr + [ev]) == if ev.Sampled? then SamplesOf(tr) + [ev.rtt] else SamplesOf(tr)
  {
  }

  /** What a transmission leaves of the estimator. */
  lemma TransmitEstimate(cc: Settings, k: Correlativity, s: State, q: nat, name: Name, same: bool)
    ensures var s' := Transmit(cc, k, s, q, name, same);
            && SameEstimate(s'.rtt, s.rtt) && s'.rtt.multiplier == s.rtt.multiplier
            && SamplesOf(s'.trace) == SamplesOf(s.trace)
  {
    var (rto, e) := ArmRto(cc, k, s.rtt, q, name, same, s.now);
    SamplesAppended(s.trace, Sent(q, s.now, rto));
  }

  lemma SendEstimate(cc: Settings, k: Correlativity, s: State, prefix: Name, same: bool)
    ensures var s' := SendPacket(cc, k, s, prefix, same);
            && SameEstimate(s'.rtt, s.rtt) && s'.rtt.multiplier == s.rtt.multiplier
            && SamplesOf(s'.trace) == SamplesOf(s.trace)
  {
    if MaySend(cc, s) {
      var known := GetName(s.rtt.history, s.nextSeq);
      TransmitEstimate(cc, k, s.(nextSeq := s.nextSeq + 1), s.nextSeq,
                       if known == [] then prefix + [SeqNo(s.nextSeq)] else known, same);
    }
  }

  lemma TimeoutEstimate(cc: Settings, k: Correlativity, s: State, q: nat, same: bool)
    ensures var s' := OnTimeout(cc, k, s.(timeouts := s.timeouts - {q}), q, same);
            && SameEstimate(s'.rtt, s.rtt) && s'.rtt.multiplier == IncreaseMultiplier(cc.rtt, s.rtt).multiplier
            && SamplesOf(s'.trace) == SamplesOf(s.trace)
  {
    if CountOf(s.retxCounts, q) < cc.retxNum {
      TimeoutMeaning(cc, k, s, q, same);
      TransmitEstimate(cc, k, Marked(cc, s, q), q, GetName(Marked(cc, s, q).rtt.history, q), same);
    }
  }

  /** What one event does to the estimate and the multiplier. */
  lemma StepEstimate(cc: Settings, k: Correlativity, s: State, ev: Event)
    ensures var s' := Step(cc, k, s, ev);
            var sample := if ev.Data? && s.active then Ack(cc.rtt, s.rtt, ev.q, s.now).1 else None;
            var fired := ev.Timeout? && Due(s, ev.q);
            && SamplesOf(s'.trace) == SamplesOf(s.trace) + (if sample.Some? then [sample.value] else [])
            && SameEstimate(s'.rtt, if sample.Some? then Measure(cc.rtt, s.rtt, sample.value) else s.rtt)
            && s'.rtt.multiplier == (if sample.Some? then 1
                                     else if fired then IncreaseMultiplier(cc.rtt, s.rtt).multiplier
                                     else s.rtt.multiplier)
  {
    match ev
    case Send(prefix, same) => SendEstimate(cc, k, s, prefix, same);
    case Data(q) =>
      if s.active {
        DataEstimate(cc, s, q);
      }
    case Timeout(q, same) => TimeoutEstimate(cc, k, s, q, same);
    case _ =>
  }

  lemma AckMeaning(c: Config, e: Estimator, q: nat, now: real)
    ensures var (e', sample) := Ack(c, e, q, now);
            var rec := RecordOf(e.history, q);
            if rec.Some? && !rec.value.retx
            then sample == Some(now - rec.value.sentAt)
                 && e' == Measure(c, e, now - rec.value.sentAt).(multiplier := 1, history := e'.history)
            else sample == None && e' == e.(history := e'.history)
  {
  }

  lemma DataSamples(cc: Settings, s: State, q: nat)
    requires s.active
    ensures var sample := Ack(cc.rtt, s.rtt, q, s.now).1;
            SamplesOf(OnData(cc, s, q).trace) == SamplesOf(s.trace) + (if sample.Some? then [sample.value] else [])
  {
    var (e, sample) := Ack(cc.rtt, s.rtt, q, s.now);
    var d := Report(s, q);
    SamplesAppended(s.trace, d);
    if sample.Some? {
      SamplesAppended(s.trace + [d], Sampled(q, sample.value));
      assert s.trace + [d] + [Sampled(q, sample.value)] == OnData(cc, s, q).trace;
    } else {
      assert s.trace + [d] + [] == s.trace + [d];
    }
  }

  lemma DataEstimate(cc: Settings, s: State, q: nat)
    requires s.active
    ensures var s' := OnData(cc, s, q);
            var sample := Ack(cc.rtt, s.rtt, q, s.now).1;
            && SamplesOf(s'.trace) == SamplesOf(s.trace) + (if sample.Some? then [sample.value] else [])
            && SameEstimate(s'.rtt, if sample.Some? then Measure(cc.rtt, s.rtt, sample.value) else s.rtt)
            && s'.rtt.multiplier == (if sample.Some? then 1 else s.rtt.multiplier)
  {
    DataSamples(cc, s, q);
    AckMeaning(cc.rtt, s.rtt, q, s.now);
  }

  /** In every run the estimate is the smoothing of the samples of the trace, and the
      multiplier is capped at its maximum and doubled once per timeout that fired since
      the last sample. */
  lemma {:induction false} EstimatorOfRun(cc: Settings, k: Correlativity, evs: seq<Event>)
    requires cc.rtt.Valid()
    ensures var s := Run(cc, k, InitialState(cc), evs);
            var fired := TimeoutsSinceReset(BackoffEvents(cc, k, InitialState(cc), evs));
            && SameEstimate(s.rtt, MeasureAll(cc.rtt, Initial(cc.rtt), SamplesOf(s.trace)))
            && s.rtt.multiplier == if Pow2(fired) < cc.rtt.maxMultiplier then Pow2(fired) else cc.rtt.maxMultiplier
  {
    var s0, e0 := InitialState(cc), Initial(cc.rtt);
    MultiplierOfRun(cc, k, evs);
    MultiplierClosedForm(cc.rtt, e0, BackoffEvents(cc, k, s0, evs));
    if evs != [] {
      var s, ev := Run(cc, k, s0, evs[..|evs| - 1]), evs[|evs| - 1];
      EstimatorOfRun(cc, k, evs[..|evs| - 1]);
      StepEstimate(cc, k, s, ev);
      var sample := if ev.Data? && s.active then Ack(cc.rtt, s.rtt, ev.q, s.now).1 else None;
      if sample.Some? {
        var ms := SamplesOf(s.trace);
        assert (ms + [sample.value])[..|ms|] == ms;
        MeasureSame(cc.rtt, s.rtt, MeasureAll(cc.rtt, e0, ms), sample.value);
      } else {
        assert SamplesOf(s.trace) + [] == SamplesOf(s.trace);
      }
    }
  }

  lemma {:induction false} MultiplierOfRun(cc: Settings, k: Correlativity, evs: seq<Event>)
    ensures Run(cc, k, InitialState(cc), evs).rtt.multiplier ==
            MultiplierAfter(cc.rtt, Initial(cc.rtt), BackoffEvents(cc, k, InitialState(cc), evs)).multiplier
  {
    if evs != [] {
      var s0, init, ev := InitialState(cc), evs[..|evs| - 1], evs[|evs| - 1];
      MultiplierOfRun(cc, k, init);
      StepEstimate(cc, k, Run(cc, k, s0, init), ev);
      var before, all := BackoffEvents(cc, k, s0, init), BackoffEvents(cc, k, s0, evs);
      assert all != before ==> all[..|all| - 1] == before;
    }
  }

  lemma {:induction false} SampleMembers(tr: seq<Trace>, m: real)
    ensures m in SamplesOf(tr) <==> exists i :: 0 <= i < |tr| && tr[i].Sampled? && tr[i].rtt == m
  {
    if tr != [] {
      var init := tr[..|tr| - 1];
      SampleMembers(init, m);
      assert forall i :: 0 <= i < |init| ==> init[i] == tr[i];
    }
  }

  /** In every run with a sample the estimate lies between the smallest and the largest
      sample of the trace, and the deviation between zero and the largest. */
  lemma EstimateBetweenSamples(cc: Settings, k: Correlativity, evs: seq<Event>, lo: real, hi: real)
    requires cc.rtt.Valid() && k.Valid() && 0.0 <= lo
    requires var tr := Run(cc, k, InitialState(cc), evs).trace;
             && (exists i :: 0 <= i < |tr| && tr[i].Sampled?)
             && forall i :: 0 <= i < |tr| && tr[i].Sampled? ==> lo <= tr[i].rtt <= hi
    ensures var e := Run(cc, k, InitialState(cc), evs).rtt; lo <= e.estimate <= hi && 0.0 <= e.variance <= hi
  {
    var tr := Run(cc, k, InitialState(cc), evs).trace;
    EstimatorOfRun(cc, k, evs);
    forall m ensures m in SamplesOf(tr) <==> exists i :: 0 <= i < |tr| && tr[i].Sampled? && tr[i].rtt == m {
      SampleMembers(tr, m);
    }
    var i :| 0 <= i < |tr| && tr[i].Sampled?;
    assert tr[i].rtt in SamplesOf(tr);
    SamplesBound(cc.rtt, Initial(cc.rtt), SamplesOf(tr), lo, hi);
  }
}
