/** The class `Consumer`: the event handlers over its containers and its estimator. */
module ConsumerClass {
  import opened Rtt
  import opened Consumers

  class Consumer {
    const settings: Settings
    const correlativity: Correlativity
    const rtt: RttMeanDeviation
    var now: real
    var seqNo: nat
    var active: bool
    var seqTimeouts: map<nat, real>
    var seqFullDelay: map<nat, real>
    var seqLastDelay: map<nat, real>
    var seqRetxCounts: map<nat, nat>
    var retxSeqs: set<nat>
    ghost var trace: seq<Trace>

    ghost function View(): State
      reads this, rtt
    {
      State(now, seqNo, active, seqTimeouts, seqFullDelay, seqLastDelay, seqRetxCounts, retxSeqs, rtt.View(), trace)
    }

    ghost predicate Configured()
    {
      rtt.config == settings.rtt && settings.rtt.Valid() && correlativity.Valid()
    }

    constructor (cc: Settings, k: Correlativity)
      requires cc.rtt.Valid() && k.Valid()
      ensures settings == cc && Configured() && View() == InitialState(cc)
      ensures Inv(cc, View())
    {
      settings := cc;
      correlativity := k;
      rtt := new RttMeanDeviation(cc.rtt);
      now, seqNo, active := 0.0, 0, false;
      seqTimeouts, seqFullDelay, seqLastDelay, seqRetxCounts, retxSeqs := map[], map[], map[], map[], {};
      trace := [];
      new;
      RunKeeps(cc, k, []);
    }

    /** The simulator's clock moves on. */
    method Elapse(dt: real)
      requires dt >= 0.0
      modifies this`now
      ensures View() == Step(settings, correlativity, old(View()), Advance(dt))
    {
      now := now + dt;
    }

    /** The application is started or stopped. */
    method SetActive(on: bool)
      modifies this`active
      ensures View() == Step(settings, correlativity, old(View()), Activate(on))
    {
      active := on;
    }

    /** Twice the last timeout for a retransmission; for a first transmission the
        estimate by correlativity, or the plain one. */
    method ChooseRto(q: nat, name: Name, same: bool) returns (rto: real)
      requires Configured()
      modifies rtt
      ensures (rto, rtt.View()) == ArmRto(settings, correlativity, old(rtt.View()), q, name, same, now)
    {
      rto := rtt.RetransRtoBySeq(q);
      if rto == 0.0 {
        if !same {
          rto := rtt.CalRtoByCorrelativity(correlativity, name, now);
        } else {
          rto := RetransmitTimeout(settings.rtt, rtt.View());
        }
      }
    }

    /** The bookkeeping of a transmission: first and last send time, and the count. */
    method NoteSendTime(q: nat)
      modifies this`seqFullDelay, this`seqLastDelay, this`seqRetxCounts
      ensures seqFullDelay == InsertUnique(old(seqFullDelay), q, now)
      ensures seqLastDelay == old(seqLastDelay)[q := now]
      ensures seqRetxCounts == old(seqRetxCounts)[q := CountOf(old(seqRetxCounts), q) + 1]
    {
      if q !in seqFullDelay {
        seqFullDelay := seqFullDelay[q := now];
      }
      seqLastDelay := seqLastDelay - {q};
      seqLastDelay := seqLastDelay[q := now];
      seqRetxCounts := seqRetxCounts[q := CountOf(seqRetxCounts, q) + 1];
    }

    /** `WaitBeforeSendOutInterest` */
    method WaitBeforeSendOutInterest(q: nat, name: Name, same: bool)
      requires Configured()
      modifies this, rtt
      ensures View() == Transmit(settings, correlativity, old(View()), q, name, same)
    {
      ghost var before := View();
      NoteSendTime(q);
      var rto := ChooseRto(q, name, same);
      TransmitMeaning(settings, correlativity, before, q, name, same, rto, rtt.View());
      if q !in seqTimeouts {
        seqTimeouts := seqTimeouts[q := now + rto];
      }
      rtt.StoreInterest(name, q, now, rto);
      trace := trace + [Sent(q, now, rto)];
    }

    /** `SendPacket` */
    method Send(prefix: Name, same: bool)
      requires Configured()
      modifies this, rtt
      ensures View() == SendPacket(settings, correlativity, old(View()), prefix, same)
    {
      if !active {
        return;
      }
      if settings.seqMax != UNLIMITED {
        if seqNo >= settings.seqMax {
          return;
        }
      }
      var q := seqNo;
      seqNo := seqNo + 1;
      var name := rtt.NameBySeq(q);
      if name == [] {
        name := prefix + [SeqNo(q)];
      }
      WaitBeforeSendOutInterest(q, name, same);
    }

    /** `OnData` */
    method Receive(q: nat)
      requires Configured()
      modifies this, rtt
      ensures View() == OnData(settings, old(View()), q)
    {
      if !active {
        return;
      }
      trace := trace + [Delivered(q, Since(seqLastDelay, q, now), Since(seqFullDelay, q, now),
                                  CountOf(seqRetxCounts, q))];
      seqRetxCounts := seqRetxCounts - {q};
      seqTimeouts := seqTimeouts - {q};
      retxSeqs := retxSeqs - {q};
      seqFullDelay := seqFullDelay - {q};
      seqLastDelay := seqLastDelay - {q};
      ghost var sample := rtt.AckSeq(q, now);
      trace := trace + (if sample.Some? then [Sampled(q, sample.value)] else []);
    }

    /** `OnTimeout` */
    method HandleTimeout(q: nat, same: bool)
      requires Configured()
      modifies this, rtt
      ensures View() == OnTimeout(settings, correlativity, old(View()), q, same)
    {
      rtt.BackOff();
      if CountOf(seqRetxCounts, q) < settings.retxNum {
        seqRetxCounts := seqRetxCounts[q := CountOf(seqRetxCounts, q)];
        rtt.MarkRetransmitted(q);
        retxSeqs := retxSeqs + {q};
        var name := rtt.NameBySeq(q);
        if name != [] {
          WaitBeforeSendOutInterest(q, name, same);
        }
      } else {
        seqRetxCounts := seqRetxCounts - {q};
        seqFullDelay := seqFullDelay - {q};
        seqLastDelay := seqLastDelay - {q};
        seqTimeouts := seqTimeouts - {q};
        rtt.DiscardInterest(q);
      }
    }

    /** The entry first in time order. */
    method Earliest() returns (q: nat)
      requires seqTimeouts != map[]
      ensures q in seqTimeouts && forall p :: p in seqTimeouts ==> seqTimeouts[q] <= seqTimeouts[p]
    {
      var todo := seqTimeouts.Keys;
      q :| q in todo;
      todo := todo - {q};
      while todo != {}
        invariant todo <= seqTimeouts.Keys && q in seqTimeouts
        invariant forall p :: p in seqTimeouts && p !in todo ==> seqTimeouts[q] <= seqTimeouts[p]
        decreases |todo|
      {
        var p :| p in todo;
        if seqTimeouts[p] < seqTimeouts[q] {
          q := p;
        }
        todo := todo - {p};
      }
    }

    /** The sequence numbers whose deadline has passed. */
    ghost function DueSet(): set<nat>
      reads this
    {
      set q | q in seqTimeouts && seqTimeouts[q] <= now
    }

    /** `CheckRetxTimeout`: drains the due entries although `OnTimeout` puts new ones
        into the container. It ends, it is a run of timeout events, and afterwards
        every deadline is later than now. */
    method CheckRetxTimeout(same: bool) returns (ghost fired: seq<Event>)
      requires Configured() && Inv(settings, View())
      modifies this, rtt
      ensures Inv(settings, View()) && now == old(now)
      ensures View() == Run(settings, correlativity, old(View()), fired)
      ensures forall ev :: ev in fired ==> ev.Timeout?
      ensures |fired| == |old(DueSet())|
      ensures forall q :: q in seqTimeouts ==> seqTimeouts[q] > now
    {
      fired := [];
      while seqTimeouts != map[]
        invariant Configured() && Inv(settings, View()) && now == old(now)
        invariant View() == Run(settings, correlativity, old(View()), fired)
        invariant forall ev :: ev in fired ==> ev.Timeout?
        invariant |fired| + |DueSet()| == |old(DueSet())|
        decreases |DueSet()|
      {
        var q := Earliest();
        if seqTimeouts[q] <= now {
          ghost var ev := FireTimeout(q, same);
          assert (fired + [ev])[..|fired|] == fired;
          fired := fired + [ev];
        } else {
          assert DueSet() == {};
          break;
        }
      }
      assert seqTimeouts == map[] ==> DueSet() == {};
    }

    /** One round of the loop: the entry is erased, then `OnTimeout` handles it. */
    method FireTimeout(q: nat, same: bool) returns (ghost ev: Event)
      requires Configured() && Inv(settings, View()) && Due(View(), q)
      modifies this, rtt
      ensures Inv(settings, View()) && now == old(now) && ev == Timeout(q, same)
      ensures View() == Step(settings, correlativity, old(View()), ev)
      ensures DueSet() == old(DueSet()) - {q}
    {
      ghost var before := View();
      ghost var dueBefore := DueSet();
      TimeoutKeeps(settings, correlativity, before, q, same);
      TimeoutRearmsLater(settings, correlativity, before, q, same);
      seqTimeouts := seqTimeouts - {q};
      HandleTimeout(q, same);
      ev := Timeout(q, same);
      forall p ensures p in DueSet() <==> p in dueBefore - {q} {
        assert p != q ==> SameEntry(before.timeouts, View().timeouts, p);
      }
    }

    /** Any event, by the handler it belongs to. */
    method Handle(ev: Event)
      requires Configured()
      modifies this, rtt
      ensures View() == Step(settings, correlativity, old(View()), ev)
    {
      match ev
      case Advance(dt) =>
        if dt >= 0.0 {
          Elapse(dt);
        }
      case Activate(on) =>
        SetActive(on);
      case Send(prefix, same) =>
        Send(prefix, same);
      case Data(q) =>
        Receive(q);
      case Timeout(q, same) =>
        if q in seqTimeouts && seqTimeouts[q] <= now && forall p :: p in seqTimeouts ==>
            seqTimeouts[q] <= seqTimeouts[p] {
          seqTimeouts := seqTimeouts - {q};
          HandleTimeout(q, same);
        }
    }

    /** A consumer that handles events in turn does what the transition system does, and
        stays in its invariant. */
    method HandleAll(evs: seq<Event>)
      requires Configured() && Inv(settings, View())
      modifies this, rtt
      ensures View() == Run(settings, correlativity, old(View()), evs) && Inv(settings, View())
    {
      for i := 0 to |evs|
        invariant View() == Run(settings, correlativity, old(View()), evs[..i]) && Inv(settings, View())
      {
        assert evs[..i + 1][..i] == evs[..i];
        StepKeeps(settings, correlativity, View(), evs[i]);
        Handle(evs[i]);
      }
      assert evs[..|evs|] == evs;
    }
  }
}
