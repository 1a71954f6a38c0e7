/** The consumer's retransmission machine as a transition system: sending, Data,
    retransmission timeouts and the passage of time. */
module Consumers {
  import opened Options
  import opened Rtt

  const UNLIMITED: nat := 0xFFFF_FFFF

  datatype Settings = Settings(rtt: Config, seqMax: nat, retxNum: nat)

  /** What an observer sees: transmissions with the timeout they were armed with,
      round-trip samples, and Data with the delays and the count reported for it. */
  datatype Trace =
    | Sent(q: nat, at: real, rto: real)
    | Sampled(q: nat, rtt: real)
    | Delivered(q: nat, sinceLast: Option<real>, sinceFirst: Option<real>, sends: nat)

  datatype State = State(
    now: real,
    nextSeq: nat,
    active: bool,
    timeouts: map<nat, real>,
    fullDelay: map<nat, real>,
    lastDelay: map<nat, real>,
    retxCounts: map<nat, nat>,
    retxSeqs: set<nat>,
    rtt: Estimator,
    trace: seq<Trace>)

  function InitialState(cc: Settings): State {
    State(0.0, 0, false, map[], map[], map[], map[], {}, Initial(cc.rtt), [])
  }

  function CountOf(counts: map<nat, nat>, q: nat): nat { if q in counts then counts[q] else 0 }

  /** Insertion into a container that is unique by sequence number. */
  function InsertUnique(m: map<nat, real>, q: nat, t: real): map<nat, real> { if q in m then m else m[q := t] }

  /** The timeout a transmission is armed with, and the history after computing it. */
  function ArmRto(cc: Settings, k: Correlativity, e: Estimator, q: nat, name: Name, same: bool, now: real)
    : (real, Estimator)
  {
    var rto := GetRetransRto(cc.rtt, e.history, q);
    if rto != 0.0 then (rto, e)
    else if same then (RetransmitTimeout(cc.rtt, e), e)
    else (RtoByCorrelativity(cc.rtt, e, k, name, now), e.(history := Purge(e.history, now, THREE_MINUTES)))
  }

  /** `WaitBeforeSendOutInterest` and the transmission that follows it. */
  function Transmit(cc: Settings, k: Correlativity, s: State, q: nat, name: Name, same: bool): State {
    var (rto, e) := ArmRto(cc, k, s.rtt, q, name, same, s.now);
    s.(fullDelay := InsertUnique(s.fullDelay, q, s.now),
       lastDelay := s.lastDelay[q := s.now],
       retxCounts := s.retxCounts[q := CountOf(s.retxCounts, q) + 1],
       timeouts := InsertUnique(s.timeouts, q, s.now + rto),
       rtt := e.(history := SetInterestInfo(e.history, name, q, s.now, rto)),
       trace := s.trace + [Sent(q, s.now, rto)])
  }

  lemma TransmitMeaning(cc: Settings, k: Correlativity, s: State, q: nat, name: Name, same: bool, rto: real,
                        e: Estimator)
    requires (rto, e) == ArmRto(cc, k, s.rtt, q, name, same, s.now)
    ensures Transmit(cc, k, s, q, name, same) ==
            s.(fullDelay := InsertUnique(s.fullDelay, q, s.now), lastDelay := s.lastDelay[q := s.now],
               retxCounts := s.retxCounts[q := CountOf(s.retxCounts, q) + 1],
               timeouts := InsertUnique(s.timeouts, q, s.now + rto),
               rtt := e.(history := SetInterestInfo(e.history, name, q, s.now, rto)),
               trace := s.trace + [Sent(q, s.now, rto)])
  {
  }

  predicate MaySend(cc: Settings, s: State) {
    s.active && (cc.seqMax == UNLIMITED || s.nextSeq < cc.seqMax)
  }

  function SendPacket(cc: Settings, k: Correlativity, s: State, prefix: Name, same: bool): State {
    if !MaySend(cc, s) then s
    else
      var q := s.nextSeq;
      var known := GetName(s.rtt.history, q);
      Transmit(cc, k, s.(nextSeq := q + 1), q, if known == [] then prefix + [SeqNo(q)] else known, same)
  }

  function Since(m: map<nat, real>, q: nat, now: real): Option<real> {
    if q in m then Some(now - m[q]) else None
  }

  /** What is reported of Data: the delays, and how often its Interest was sent. */
  function Report(s: State, q: nat): Trace {
    Delivered(q, Since(s.lastDelay, q, s.now), Since(s.fullDelay, q, s.now), CountOf(s.retxCounts, q))
  }

  function OnData(cc: Settings, s: State, q: nat): State {
    if !s.active then s
    else
      var (e, sample) := Ack(cc.rtt, s.rtt, q, s.now);
      s.(timeouts := s.timeouts - {q}, fullDelay := s.fullDelay - {q}, lastDelay := s.lastDelay - {q},
         retxCounts := s.retxCounts - {q}, retxSeqs := s.retxSeqs - {q}, rtt := e,
         trace := s.trace + [Report(s, q)]
                  + (if sample.Some? then [Sampled(q, sample.value)] else []))
  }

  /** The entry `CheckRetxTimeout` takes next: a due one with the earliest deadline. */
  predicate Due(s: State, q: nat) {
    q in s.timeouts && s.timeouts[q] <= s.now && forall p :: p in s.timeouts ==> s.timeouts[q] <= s.timeouts[p]
  }

  /** `OnTimeout` for an entry just taken out of the timeout container. */
  function OnTimeout(cc: Settings, k: Correlativity, s: State, q: nat, same: bool): State {
    var s1 := s.(rtt := IncreaseMultiplier(cc.rtt, s.rtt));
    if CountOf(s.retxCounts, q) < cc.retxNum then
      var s2 := s1.(retxCounts := s.retxCounts[q := CountOf(s.retxCounts, q)],
                    retxSeqs := s.retxSeqs + {q},
                    rtt := s1.rtt.(history := SetRetransmit(s.rtt.history, q)));
      var name := GetName(s2.rtt.history, q);
      if name != [] then Transmit(cc, k, s2, q, name, same) else s2
    else
      s1.(retxCounts := s.retxCounts - {q}, fullDelay := s.fullDelay - {q}, lastDelay := s.lastDelay - {q},
          timeouts := s.timeouts - {q}, rtt := s1.rtt.(history := Discard(s.rtt.history, q)))
  }

  datatype Event =
    | Advance(dt: real)
    | Activate(on: bool)
    | Send(prefix: Name, same: bool)
    | Data(q: nat)
    | Timeout(q: nat, same: bool)

  /** One event; one that is not possible in the state changes nothing. */
  function Step(cc: Settings, k: Correlativity, s: State, ev: Event): State {
    match ev
    case Advance(dt) => if dt >= 0.0 then s.(now := s.now + dt) else s
    case Activate(on) => s.(active := on)
    case Send(prefix, same) => SendPacket(cc, k, s, prefix, same)
    case Data(q) => OnData(cc, s, q)
    case Timeout(q, same) =>
      if Due(s, q) then OnTimeout(cc, k, s.(timeouts := s.timeouts - {q}), q, same) else s
  }

  function Run(cc: Settings, k: Correlativity, s: State, evs: seq<Event>): State
    decreases |evs|
  {
    if evs == [] then s else Step(cc, k, Run(cc, k, s, evs[..|evs| - 1]), evs[|evs| - 1])
  }

  // ------------------------------------------------------------- reading the trace

  /** The transmissions of `q`: send time and timeout. */
  function SentOf(tr: seq<Trace>, q: nat): seq<(real, real)> {
    if tr == [] then []
    else
      var init, last := SentOf(tr[..|tr| - 1], q), tr[|tr| - 1];
      if last.Sent? && last.q == q then init + [(last.at, last.rto)] else init
  }

  predicate WasSampled(tr: seq<Trace>, q: nat) {
    exists i :: 0 <= i < |tr| && tr[i].Sampled? && tr[i].q == q
  }

  /** Data for `q` was processed after `q` had been sent. */
  predicate Finished(tr: seq<Trace>, q: nat) {
    tr != [] &&
        (Finished(tr[..|tr| - 1], q) ||
            (tr[|tr| - 1].Delivered? && tr[|tr| - 1].q == q && SentOf(tr[..|tr| - 1], q) != []))
  }

  /** What every event of the trace satisfies when it happens. */
  ghost predicate WellBehaved(tr: seq<Trace>) {
    tr != [] ==>
      var init, last := tr[..|tr| - 1], tr[|tr| - 1];
      && WellBehaved(init)
      && match last
         case Sent(q, _, rto) => !Finished(init, q) && rto > 0.0
         case Sampled(q, m) => m >= 0.0 && |SentOf(init, q)| == 1
         case Delivered(q, sinceLast, sinceFirst, _) =>
           (sinceLast.Some? <==> sinceFirst.Some?) &&
           (sinceLast.Some? ==> 0.0 <= sinceLast.value <= sinceFirst.value)
  }

  // --------------------------------------------------------------------- invariant

  function Cap(cc: Settings): nat { if cc.retxNum <= 1 then 1 else cc.retxNum }

  /** The k-th timeout of a doubling sequence capped at `maxRto`. */
  function Backoff(c: Config, first: real, k: nat): real { Min(c.maxRto, Pow2(k) as real * first) }

  /** The transmissions of one sequence number: never too many, in time order, armed
      with doubling timeouts. */
  ghost predicate Transmissions(cc: Settings, now: real, l: seq<(real, real)>) {
    && |l| <= Cap(cc)
    && (forall i :: 0 <= i < |l| ==> l[0].0 <= l[i].0 <= l[|l| - 1].0 <= now)
    && (forall i :: 0 <= i < |l| ==> l[i].1 == Backoff(cc.rtt, l[0].1, i))
    && (l != [] ==> 0.0 < l[0].1 <= cc.rtt.maxRto)
  }

  ghost predicate RecordRight(now: real, rec: Record, l: seq<(real, real)>) {
    && l != [] && rec.name != [] && rec.rto == l[|l| - 1].1
    && rec.sentAt == l[0].0 && rec.sentAt <= rec.rcvAt <= now
    && (!rec.retx ==> |l| == 1)
  }

  ghost predicate SeqInv(cc: Settings, s: State, q: nat) {
    var l := SentOf(s.trace, q);
    var rec := RecordOf(s.rtt.history, q);
    && (q >= s.nextSeq ==> l == [] && rec.None? && q !in s.retxCounts)
    && Transmissions(cc, s.now, l)
    && (q in s.fullDelay <==> q in s.retxCounts) && (q in s.lastDelay <==> q in s.retxCounts)
    && (q in s.timeouts ==> q in s.retxCounts)
    && (q in s.retxCounts ==>
          l != [] && s.retxCounts[q] == |l| && s.fullDelay[q] == l[0].0 && s.lastDelay[q] == l[|l| - 1].0)
    && (q in s.timeouts ==>
          s.timeouts[q] == l[|l| - 1].0 + l[|l| - 1].1 && !Finished(s.trace, q) && !WasSampled(s.trace, q))
    && (rec.Some? ==> RecordRight(s.now, rec.value, l))
    && (WasSampled(s.trace, q) ==> |l| == 1)
    && (l == [] ==> !Finished(s.trace, q))
  }

  ghost predicate Inv(cc: Settings, s: State) {
    && s.rtt.multiplier >= 1
    && DistinctSeqs(s.rtt.history)
    && WellBehaved(s.trace)
    && forall q :: SeqInv(cc, s, q)
  }

  // ---------------------------------------------------------------- trace lemmas

  lemma Appended(tr: seq<Trace>, ev: Trace, q: nat)
    ensures SentOf(tr + [ev], q) == if ev.Sent? && ev.q == q then SentOf(tr, q) + [(ev.at, ev.rto)] else SentOf(tr, q)
    ensures Finished(tr + [ev], q) <==> Finished(tr, q) || (ev.Delivered? && ev.q == q && SentOf(tr, q) != [])
    ensures WasSampled(tr + [ev], q) <==> WasSampled(tr, q) || (ev.Sampled? && ev.q == q)
    ensures WellBehaved(tr + [ev]) <==>
              WellBehaved(tr) &&
              match ev
              case Sent(p, _, rto) => !Finished(tr, p) && rto > 0.0
              case Sampled(p, m) => m >= 0.0 && |SentOf(tr, p)| == 1
              case Delivered(p, sinceLast, sinceFirst, _) =>
                (sinceLast.Some? <==> sinceFirst.Some?) &&
                (sinceLast.Some? ==> 0.0 <= sinceLast.value <= sinceFirst.value)
  {
  }

  /** Nothing the invariant says about `q` has changed, except that a record may have
      been purged and time may have passed. */
  ghost predicate Untouched(s: State, s': State, q: nat) {
    && s'.now >= s.now && (q >= s'.nextSeq ==> q >= s.nextSeq)
    && SentOf(s'.trace, q) == SentOf(s.trace, q)
    && (Finished(s'.trace, q) <==> Finished(s.trace, q))
    && (WasSampled(s'.trace, q) <==> WasSampled(s.trace, q))
    && (RecordOf(s'.rtt.history, q) == RecordOf(s.rtt.history, q) || RecordOf(s'.rtt.history, q) == None)
    && SameEntry(s.timeouts, s'.timeouts, q) && SameEntry(s.fullDelay, s'.fullDelay, q)
    && SameEntry(s.lastDelay, s'.lastDelay, q) && SameEntry(s.retxCounts, s'.retxCounts, q)
  }

  predicate SameEntry<T(==)>(a: map<nat, T>, b: map<nat, T>, q: nat) {
    (q in a <==> q in b) && (q in a ==> a[q] == b[q])
  }

  lemma UntouchedKeeps(cc: Settings, s: State, s': State, q: nat)
    requires SeqInv(cc, s, q) && Untouched(s, s', q)
    ensures SeqInv(cc, s', q)
  {
  }

  // ------------------------------------------------------------------ transmitting

  lemma ArmRtoPositive(cc: Settings, k: Correlativity, e: Estimator, q: nat, name: Name, same: bool, now: real)
    requires cc.rtt.Valid() && k.Valid() && e.multiplier >= 1
    requires RecordOf(e.history, q).Some? ==> RecordOf(e.history, q).value.rto > 0.0
    ensures var (rto, e') := ArmRto(cc, k, e, q, name, same, now);
            && 0.0 < rto <= cc.rtt.maxRto
            && (RecordOf(e.history, q).Some? ==>
                e' == e && rto == Min(cc.rtt.maxRto, RecordOf(e.history, q).value.rto * 2.0))
            && (e' == e || e' == e.(history := Purge(e.history, now, THREE_MINUTES)))
  {
    RetransmitTimeoutInRange(cc.rtt, e);
  }

  /** The next timeout of a doubling sequence doubles the last one, capped. */
  lemma BackoffDoubles(c: Config, first: real, k: nat)
    requires 0.0 < first && c.Valid()
    ensures Backoff(c, first, k + 1) == Min(c.maxRto, Backoff(c, first, k) * 2.0)
    ensures first <= c.maxRto ==> Backoff(c, first, 0) == first
    ensures Backoff(c, first, k) > 0.0
  {
  }

  lemma TransmissionsExtend(cc: Settings, now: real, l: seq<(real, real)>, rto: real)
    requires cc.rtt.Valid() && Transmissions(cc, now, l) && |l| < Cap(cc)
    requires if l == [] then 0.0 < rto <= cc.rtt.maxRto else rto == Min(cc.rtt.maxRto, l[|l| - 1].1 * 2.0)
    ensures Transmissions(cc, now, l + [(now, rto)])
  {
    var l' := l + [(now, rto)];
    if l == [] {
      BackoffDoubles(cc.rtt, rto, 0);
    } else {
      BackoffDoubles(cc.rtt, l[0].1, |l| - 1);
      assert l[|l| - 1].1 == Backoff(cc.rtt, l[0].1, |l| - 1);
    }
    forall i | 0 <= i < |l'| ensures l'[i].1 == Backoff(cc.rtt, l'[0].1, i) {
      assert i < |l| ==> l'[i] == l[i];
    }
    forall i | 0 <= i < |l'| ensures l'[0].0 <= l'[i].0 <= l'[|l'| - 1].0 <= now {
      assert i < |l| ==> l'[i] == l[i];
    }
  }

  /** A transmission of `q` keeps the invariant, if `q` is not armed and the cap is
      not reached. A retransmission has a record, which is already marked. */
  lemma TransmitKeepsOwn(cc: Settings, k: Correlativity, s: State, q: nat, name: Name, same: bool)
    requires cc.rtt.Valid() && k.Valid() && name != [] && q < s.nextSeq
    requires TransmitReady(cc, s, q)
    ensures SeqInv(cc, Transmit(cc, k, s, q, name, same), q)
  {
    var l := SentOf(s.trace, q);
    var rto, e := ArmRto(cc, k, s.rtt, q, name, same, s.now).0, ArmRto(cc, k, s.rtt, q, name, same, s.now).1;
    assert Transmissions(cc, s.now, l + [(s.now, rto)]) by {
      ArmedInOrder(cc, k, s, q, name, same, rto, e);
      TransmissionsExtend(cc, s.now, l, rto);
    }
    ArmedInOrder(cc, k, s, q, name, same, rto, e);
    TransmitOwn(cc, k, s, q, name, same, rto, e);
    TransmittedInv(cc, s, Transmit(cc, k, s, q, name, same), q, name, rto, l);
  }

  /** The timeout continues the doubling sequence of the number. */
  lemma ArmedInOrder(cc: Settings, k: Correlativity, s: State, q: nat, name: Name, same: bool, rto: real, e: Estimator)
    requires cc.rtt.Valid() && k.Valid() && TransmitReady(cc, s, q)
    requires (rto, e) == ArmRto(cc, k, s.rtt, q, name, same, s.now)
    ensures var l := SentOf(s.trace, q);
            if l == [] then 0.0 < rto <= cc.rtt.maxRto else rto == Min(cc.rtt.maxRto, l[|l| - 1].1 * 2.0)
    ensures e == s.rtt || e == s.rtt.(history := Purge(s.rtt.history, s.now, THREE_MINUTES))
    ensures RecordOf(s.rtt.history, q).Some? ==> e == s.rtt
  {
    var l := SentOf(s.trace, q);
    assert l != [] ==> l[|l| - 1].1 > 0.0 by {
      if l != [] {
        BackoffDoubles(cc.rtt, l[0].1, |l| - 1);
      }
    }
    ArmRtoPositive(cc, k, s.rtt, q, name, same, s.now);
  }

  /** What a transmission makes of the trace and the history of its number. */
  lemma TransmitOwn(cc: Settings, k: Correlativity, s: State, q: nat, name: Name, same: bool, rto: real, e: Estimator)
    requires (rto, e) == ArmRto(cc, k, s.rtt, q, name, same, s.now) && DistinctSeqs(s.rtt.history)
    requires e == s.rtt || e == s.rtt.(history := Purge(s.rtt.history, s.now, THREE_MINUTES))
    requires RecordOf(s.rtt.history, q).Some? ==> e == s.rtt
    ensures var s' := Transmit(cc, k, s, q, name, same);
            && s' == s.(fullDelay := InsertUnique(s.fullDelay, q, s.now), lastDelay := s.lastDelay[q := s.now],
                        retxCounts := s.retxCounts[q := CountOf(s.retxCounts, q) + 1],
                        timeouts := InsertUnique(s.timeouts, q, s.now + rto), rtt := s'.rtt, trace := s'.trace)
            && SentOf(s'.trace, q) == SentOf(s.trace, q) + [(s.now, rto)]
            && (Finished(s'.trace, q) <==> Finished(s.trace, q)) &&
                (WasSampled(s'.trace, q) <==> WasSampled(s.trace, q))
            && RecordOf(s'.rtt.history, q) ==
               var rec := RecordOf(s.rtt.history, q);
               Some(if rec.Some? then rec.value.(retx := true, rto := rto)
                   else Record(q, s.now, s.now, rto, false, name))
  {
    Appended(s.trace, Sent(q, s.now, rto), q);
    PurgeKeeps(s.rtt.history, s.now, THREE_MINUTES, q);
    StoreKeeps(e.history, name, q, s.now, rto, q);
  }

  lemma TransmittedInv(cc: Settings, s: State, s': State, q: nat, name: Name, rto: real, l: seq<(real, real)>)
    requires TransmitReady(cc, s, q) && l == SentOf(s.trace, q) && q < s.nextSeq && name != []
    requires Transmissions(cc, s.now, l + [(s.now, rto)])
    requires s' == s.(fullDelay := InsertUnique(s.fullDelay, q, s.now), lastDelay := s.lastDelay[q := s.now],
                      retxCounts := s.retxCounts[q := CountOf(s.retxCounts, q) + 1],
                      timeouts := InsertUnique(s.timeouts, q, s.now + rto), rtt := s'.rtt, trace := s'.trace)
    requires SentOf(s'.trace, q) == l + [(s.now, rto)]
    requires (Finished(s'.trace, q) <==> Finished(s.trace, q)) && (WasSampled(s'.trace, q) <==> WasSampled(s.trace, q))
    requires RecordOf(s'.rtt.history, q) ==
             var rec := RecordOf(s.rtt.history, q);
             Some(if rec.Some? then rec.value.(retx := true, rto := rto) else Record(q, s.now, s.now, rto, false, name))
    ensures SeqInv(cc, s', q)
  {
    assert l != [] ==> (l + [(s.now, rto)])[0] == l[0];
  }

  /** The state just before `q` is transmitted. */
  ghost predicate TransmitReady(cc: Settings, s: State, q: nat) {
    var l := SentOf(s.trace, q);
    var rec := RecordOf(s.rtt.history, q);
    && s.rtt.multiplier >= 1 && DistinctSeqs(s.rtt.history)
    && Transmissions(cc, s.now, l) && |l| < Cap(cc)
    && q !in s.timeouts && !Finished(s.trace, q) && !WasSampled(s.trace, q)
    && (q in s.fullDelay <==> l != []) && (q in s.lastDelay <==> l != [])
    && CountOf(s.retxCounts, q) == |l|
    && (l != [] ==> s.fullDelay[q] == l[0].0)
    && (rec.Some? <==> l != []) && (rec.Some? ==> RecordRight(s.now, rec.value, l) && rec.value.retx)
  }

  lemma StoreKeeps(h: seq<Record>, name: Name, q: nat, now: real, rto: real, p: nat)
    requires DistinctSeqs(h)
    ensures var h' := SetInterestInfo(h, name, q, now, rto);
            && DistinctSeqs(h')
            && RecordOf(h', p) == if p != q then RecordOf(h, p)
                                  else if Has(h, q) then Some(h[Find(h, q)].(retx := true, rto := rto))
                                  else Some(Record(q, now, now, rto, false, name))
  {
    if Has(h, q) {
      UpdateRecord(h, Find(h, q), h[Find(h, q)].(retx := true, rto := rto), p);
    } else {
      AppendRecord(h, Record(q, now, now, rto, false, name), p);
    }
  }

  lemma TransmitKeepsOther(cc: Settings, k: Correlativity, s: State, q: nat, name: Name, same: bool, p: nat)
    requires p != q && DistinctSeqs(s.rtt.history)
    ensures Untouched(s, Transmit(cc, k, s, q, name, same), p)
  {
    var (rto, e) := ArmRto(cc, k, s.rtt, q, name, same, s.now);
    Appended(s.trace, Sent(q, s.now, rto), p);
    PurgeKeeps(s.rtt.history, s.now, THREE_MINUTES, p);
    StoreKeeps(e.history, name, q, s.now, rto, p);
  }

  lemma TransmitKeepsGlobal(cc: Settings, k: Correlativity, s: State, q: nat, name: Name, same: bool)
    requires cc.rtt.Valid() && k.Valid()
    requires TransmitReady(cc, s, q) && WellBehaved(s.trace)
    ensures var s' := Transmit(cc, k, s, q, name, same);
            s'.rtt.multiplier >= 1 && DistinctSeqs(s'.rtt.history) && WellBehaved(s'.trace)
  {
    ArmRtoPositive(cc, k, s.rtt, q, name, same, s.now);
    var (rto, e) := ArmRto(cc, k, s.rtt, q, name, same, s.now);
    Appended(s.trace, Sent(q, s.now, rto), q);
    PurgeKeeps(s.rtt.history, s.now, THREE_MINUTES, q);
    StoreKeeps(e.history, name, q, s.now, rto, q);
  }

  // ------------------------------------------------------------------- the events

  lemma SendReady(cc: Settings, s: State)
    requires Inv(cc, s)
    ensures TransmitReady(cc, s.(nextSeq := s.nextSeq + 1), s.nextSeq)
    ensures GetName(s.rtt.history, s.nextSeq) == []
  {
    assert SeqInv(cc, s, s.nextSeq);
  }

  lemma SendKeepsOther(cc: Settings, k: Correlativity, s: State, q: nat, name: Name, same: bool, p: nat)
    requires Inv(cc, s) && q == s.nextSeq && p != q
    ensures SeqInv(cc, Transmit(cc, k, s.(nextSeq := q + 1), q, name, same), p)
  {
    var s1 := s.(nextSeq := q + 1);
    assert SeqInv(cc, s, p);
    TransmitKeepsOther(cc, k, s1, q, name, same, p);
    UntouchedKeeps(cc, s, Transmit(cc, k, s1, q, name, same), p);
  }

  lemma SendKeeps(cc: Settings, k: Correlativity, s: State, prefix: Name, same: bool)
    requires cc.rtt.Valid() && k.Valid() && Inv(cc, s)
    ensures Inv(cc, SendPacket(cc, k, s, prefix, same))
  {
    if MaySend(cc, s) {
      SendReady(cc, s);
      NextSentKeeps(cc, k, s, prefix + [SeqNo(s.nextSeq)], same);
    }
  }

  lemma NextSentKeeps(cc: Settings, k: Correlativity, s: State, name: Name, same: bool)
    requires cc.rtt.Valid() && k.Valid() && Inv(cc, s) && name != []
    ensures Inv(cc, Transmit(cc, k, s.(nextSeq := s.nextSeq + 1), s.nextSeq, name, same))
  {
    var q := s.nextSeq;
    var s1 := s.(nextSeq := q + 1);
    SendReady(cc, s);
    TransmitKeepsOwn(cc, k, s1, q, name, same);
    TransmitKeepsGlobal(cc, k, s1, q, name, same);
    forall p ensures SeqInv(cc, Transmit(cc, k, s1, q, name, same), p) {
      if p != q {
        SendKeepsOther(cc, k, s, q, name, same, p);
      }
    }
  }

  /** The state in which `OnTimeout` transmits: the entry taken out, the record marked. */
  lemma TimeoutReady(cc: Settings, s: State, s2: State, q: nat)
    requires cc.rtt.Valid() && Inv(cc, s) && q in s.timeouts && CountOf(s.retxCounts, q) < cc.retxNum
    requires s2 == Marked(cc, s, q)
    ensures DistinctSeqs(s2.rtt.history) && s2.rtt.multiplier >= 1
    ensures forall p :: p != q ==> Untouched(s, s2, p)
    ensures SeqInv(cc, s2, q)
    ensures GetName(s2.rtt.history, q) != [] ==> TransmitReady(cc, s2, q)
  {
    assert SeqInv(cc, s, q);
    forall p ensures RecordOf(s2.rtt.history, p) ==
                     if p == q && Has(s.rtt.history, q) then Some(s.rtt.history[Find(s.rtt.history, q)].(retx := true))
                     else RecordOf(s.rtt.history, p)
             ensures DistinctSeqs(s2.rtt.history) {
      MarkKeeps(s.rtt.history, q, p);
    }
  }

  lemma MarkKeeps(h: seq<Record>, q: nat, p: nat)
    requires DistinctSeqs(h)
    ensures var h' := SetRetransmit(h, q);
            && DistinctSeqs(h')
            && RecordOf(h', p) == if p == q && Has(h, q) then Some(h[Find(h, q)].(retx := true)) else RecordOf(h, p)
  {
    if Has(h, q) {
      UpdateRecord(h, Find(h, q), h[Find(h, q)].(retx := true), p);
    }
  }

  lemma DiscardKeeps(h: seq<Record>, q: nat, p: nat)
    requires DistinctSeqs(h)
    ensures DistinctSeqs(Discard(h, q))
    ensures RecordOf(Discard(h, q), p) == if p == q then None else RecordOf(h, p)
  {
    if Has(h, q) {
      RemoveRecord(h, Find(h, q), p);
    }
  }

  /** The state after the first statements of `OnTimeout`, when a retransmission is allowed. */
  function Marked(cc: Settings, s: State, q: nat): State {
    s.(timeouts := s.timeouts - {q}, retxCounts := s.retxCounts[q := CountOf(s.retxCounts, q)],
       retxSeqs := s.retxSeqs + {q},
       rtt := IncreaseMultiplier(cc.rtt, s.rtt).(history := SetRetransmit(s.rtt.history, q)))
  }

  lemma TimeoutMeaning(cc: Settings, k: Correlativity, s: State, q: nat, same: bool)
    requires CountOf(s.retxCounts, q) < cc.retxNum
    ensures var s2 := Marked(cc, s, q);
            var name := GetName(s2.rtt.history, q);
            OnTimeout(cc, k, s.(timeouts := s.timeouts - {q}), q, same) ==
            if name != [] then Transmit(cc, k, s2, q, name, same) else s2
  {
  }

  lemma MarkedKeepsOther(cc: Settings, s: State, q: nat, p: nat)
    requires cc.rtt.Valid() && Inv(cc, s) && q in s.timeouts && CountOf(s.retxCounts, q) < cc.retxNum && p != q
    ensures SeqInv(cc, Marked(cc, s, q), p)
  {
    TimeoutReady(cc, s, Marked(cc, s, q), q);
    assert SeqInv(cc, s, p);
    UntouchedKeeps(cc, s, Marked(cc, s, q), p);
  }

  lemma RetransmitKeeps(cc: Settings, k: Correlativity, s: State, q: nat, name: Name, same: bool)
    requires cc.rtt.Valid() && k.Valid() && Inv(cc, s) && q in s.timeouts && CountOf(s.retxCounts, q) < cc.retxNum
    requires name == GetName(Marked(cc, s, q).rtt.history, q) && name != []
    ensures Inv(cc, Transmit(cc, k, Marked(cc, s, q), q, name, same))
  {
    var s2 := Marked(cc, s, q);
    assert SeqInv(cc, s, q);
    TimeoutReady(cc, s, s2, q);
    TransmitKeepsOwn(cc, k, s2, q, name, same);
    TransmitKeepsGlobal(cc, k, s2, q, name, same);
    forall p ensures SeqInv(cc, Transmit(cc, k, s2, q, name, same), p) {
      if p != q {
        MarkedKeepsOther(cc, s, q, p);
        TransmitKeepsOther(cc, k, s2, q, name, same, p);
        UntouchedKeeps(cc, s2, Transmit(cc, k, s2, q, name, same), p);
      }
    }
  }

  lemma PurgedKeeps(cc: Settings, s: State, q: nat)
    requires cc.rtt.Valid() && Inv(cc, s) && q in s.timeouts && CountOf(s.retxCounts, q) < cc.retxNum
    ensures Inv(cc, Marked(cc, s, q))
  {
    TimeoutReady(cc, s, Marked(cc, s, q), q);
    forall p ensures SeqInv(cc, Marked(cc, s, q), p) {
      if p != q {
        MarkedKeepsOther(cc, s, q, p);
      }
    }
  }

  lemma GiveUpKeeps(cc: Settings, k: Correlativity, s: State, q: nat, same: bool)
    requires cc.rtt.Valid() && Inv(cc, s) && q in s.timeouts && CountOf(s.retxCounts, q) >= cc.retxNum
    ensures Inv(cc, OnTimeout(cc, k, s.(timeouts := s.timeouts - {q}), q, same))
  {
    var s' := OnTimeout(cc, k, s.(timeouts := s.timeouts - {q}), q, same);
    forall p ensures SeqInv(cc, s', p) ensures DistinctSeqs(s'.rtt.history) {
      assert SeqInv(cc, s, p);
      DiscardKeeps(s.rtt.history, q, p);
      if p != q {
        UntouchedKeeps(cc, s, s', p);
      }
    }
  }

  lemma TimeoutKeeps(cc: Settings, k: Correlativity, s: State, q: nat, same: bool)
    requires cc.rtt.Valid() && k.Valid() && Inv(cc, s) && q in s.timeouts
    ensures Inv(cc, OnTimeout(cc, k, s.(timeouts := s.timeouts - {q}), q, same))
  {
    if CountOf(s.retxCounts, q) < cc.retxNum {
      TimeoutMeaning(cc, k, s, q, same);
      var name := GetName(Marked(cc, s, q).rtt.history, q);
      if name != [] {
        RetransmitKeeps(cc, k, s, q, name, same);
      } else {
        PurgedKeeps(cc, s, q);
      }
    } else {
      GiveUpKeeps(cc, k, s, q, same);
    }
  }

  lemma AckKeeps(c: Config, e: Estimator, q: nat, now: real, p: nat)
    requires DistinctSeqs(e.history)
    ensures var (e', sample) := Ack(c, e, q, now);
            && DistinctSeqs(e'.history)
            && (sample.Some? <==> RecordOf(e.history, q).Some? && !RecordOf(e.history, q).value.retx)
            && (sample.Some? ==> sample.value == now - RecordOf(e.history, q).value.sentAt)
            && (e.multiplier >= 1 ==> e'.multiplier >= 1)
            && RecordOf(e'.history, p) ==
               if p != q || RecordOf(e.history, q).None? then RecordOf(e.history, p)
               else if RecordOf(e.history, q).value.retx then None
               else Some(RecordOf(e.history, q).value.(rcvAt := now))
  {
    if Has(e.history, q) {
      var i := Find(e.history, q);
      if e.history[i].retx {
        RemoveRecord(e.history, i, p);
      } else {
        UpdateRecord(e.history, i, e.history[i].(rcvAt := now), p);
      }
    }
  }

  lemma DataTrace(cc: Settings, s: State, q: nat, p: nat)
    requires s.active
    ensures var s' := OnData(cc, s, q);
            var (e, sample) := Ack(cc.rtt, s.rtt, q, s.now);
            && SentOf(s'.trace, p) == SentOf(s.trace, p)
            && (Finished(s'.trace, p) <==> Finished(s.trace, p) || (p == q && SentOf(s.trace, q) != []))
            && (WasSampled(s'.trace, p) <==> WasSampled(s.trace, p) || (p == q && sample.Some?))
  {
    var (e, sample) := Ack(cc.rtt, s.rtt, q, s.now);
    var d := Report(s, q);
    Appended(s.trace, d, p);
    if sample.Some? {
      Appended(s.trace + [d], Sampled(q, sample.value), p);
      assert s.trace + [d] + [Sampled(q, sample.value)] == OnData(cc, s, q).trace;
    } else {
      assert s.trace + [d] + [] == s.trace + [d];
    }
  }

  lemma DataWellBehaved(cc: Settings, s: State, q: nat)
    requires s.active && Inv(cc, s)
    ensures WellBehaved(OnData(cc, s, q).trace)
  {
    assert SeqInv(cc, s, q);
    var (e, sample) := Ack(cc.rtt, s.rtt, q, s.now);
    AckKeeps(cc.rtt, s.rtt, q, s.now, q);
    var d := Report(s, q);
    Appended(s.trace, d, q);
    if sample.Some? {
      Appended(s.trace + [d], Sampled(q, sample.value), q);
      assert s.trace + [d] + [Sampled(q, sample.value)] == OnData(cc, s, q).trace;
    } else {
      assert s.trace + [d] + [] == s.trace + [d];
    }
  }

  lemma DataKeeps(cc: Settings, s: State, q: nat)
    requires Inv(cc, s)
    ensures Inv(cc, OnData(cc, s, q))
  {
    if s.active {
      var s' := OnData(cc, s, q);
      DataWellBehaved(cc, s, q);
      AckKeeps(cc.rtt, s.rtt, q, s.now, q);
      forall p ensures SeqInv(cc, s', p) {
        assert SeqInv(cc, s, p);
        AckKeeps(cc.rtt, s.rtt, q, s.now, p);
        DataTrace(cc, s, q, p);
        if p != q {
          UntouchedKeeps(cc, s, s', p);
        }
      }
    }
  }

  lemma QuietKeeps(cc: Settings, s: State, now: real, active: bool)
    requires Inv(cc, s) && now >= s.now
    ensures Inv(cc, s.(now := now, active := active))
  {
    var s' := s.(now := now, active := active);
    forall p ensures SeqInv(cc, s', p) {
      assert SeqInv(cc, s, p);
      UntouchedKeeps(cc, s, s', p);
    }
  }

  lemma StepKeeps(cc: Settings, k: Correlativity, s: State, ev: Event)
    requires cc.rtt.Valid() && k.Valid() && Inv(cc, s)
    ensures Inv(cc, Step(cc, k, s, ev))
  {
    match ev
    case Advance(dt) =>
      if dt >= 0.0 {
        QuietKeeps(cc, s, s.now + dt, s.active);
      }
    case Activate(on) =>
      QuietKeeps(cc, s, s.now, on);
    case Send(prefix, same) =>
      SendKeeps(cc, k, s, prefix, same);
    case Data(q) =>
      DataKeeps(cc, s, q);
    case Timeout(q, same) =>
      if Due(s, q) {
        TimeoutKeeps(cc, k, s, q, same);
      }
  }

  lemma {:induction false} RunKeeps(cc: Settings, k: Correlativity, evs: seq<Event>)
    requires cc.rtt.Valid() && k.Valid()
    ensures Inv(cc, Run(cc, k, InitialState(cc), evs))
  {
    if evs != [] {
      RunKeeps(cc, k, evs[..|evs| - 1]);
      StepKeeps(cc, k, Run(cc, k, InitialState(cc), evs[..|evs| - 1]), evs[|evs| - 1]);
    }
  }

  // ----------------------------------------------------------- theorems over runs

  lemma {:induction false} WellBehavedAt(tr: seq<Trace>, i: nat)
    requires WellBehaved(tr) && i < |tr|
    ensures tr[i].Sent? ==> !Finished(tr[..i], tr[i].q) && tr[i].rto > 0.0
    ensures tr[i].Sampled? ==> tr[i].rtt >= 0.0 && |SentOf(tr[..i], tr[i].q)| == 1
    ensures tr[i].Delivered? && tr[i].sinceLast.Some? ==>
              tr[i].sinceFirst.Some? && 0.0 <= tr[i].sinceLast.value <= tr[i].sinceFirst.value
  {
    var init := tr[..|tr| - 1];
    if i < |init| {
      WellBehavedAt(init, i);
      assert init[..i] == tr[..i];
    }
  }

  lemma {:induction false} FinishedMeaning(tr: seq<Trace>, q: nat)
    ensures Finished(tr, q) <==>
            exists i :: 0 <= i < |tr| && tr[i].Delivered? && tr[i].q == q && SentOf(tr[..i], q) != []
  {
    if tr != [] {
      var init := tr[..|tr| - 1];
      FinishedMeaning(init, q);
      assert forall i :: 0 <= i < |init| ==> init[i] == tr[i] && init[..i] == tr[..i];
    }
  }

  /** Karn's rule (section 3 of RFC 6298): a sample is only ever taken for a sequence
      number that was transmitted once, before the sample and in the whole run. */
  lemma KarnsRule(cc: Settings, k: Correlativity, evs: seq<Event>, i: nat)
    requires cc.rtt.Valid() && k.Valid()
    requires var tr := Run(cc, k, InitialState(cc), evs).trace; i < |tr| && tr[i].Sampled?
    ensures var tr := Run(cc, k, InitialState(cc), evs).trace;
            |SentOf(tr[..i], tr[i].q)| == 1 && |SentOf(tr, tr[i].q)| == 1 && tr[i].rtt >= 0.0
  {
    RunKeeps(cc, k, evs);
    var s := Run(cc, k, InitialState(cc), evs);
    assert WasSampled(s.trace, s.trace[i].q);
    assert SeqInv(cc, s, s.trace[i].q);
    WellBehavedAt(s.trace, i);
  }

  /** A sequence number is transmitted at most max(1, retxNum) times, and never again
      once Data for it has been processed. */
  lemma TransmissionBounds(cc: Settings, k: Correlativity, evs: seq<Event>, q: nat)
    requires cc.rtt.Valid() && k.Valid()
    ensures var tr := Run(cc, k, InitialState(cc), evs).trace;
            && |SentOf(tr, q)| <= (if cc.retxNum <= 1 then 1 else cc.retxNum)
            && forall i, j :: 0 <= i < j < |tr| && tr[i].Delivered? && tr[i].q == q && SentOf(tr[..i], q) != [] ==>
                                !(tr[j].Sent? && tr[j].q == q)
  {
    RunKeeps(cc, k, evs);
    var s := Run(cc, k, InitialState(cc), evs);
    var tr := s.trace;
    assert SeqInv(cc, s, q);
    forall i, j | 0 <= i < j < |tr| && tr[i].Delivered? && tr[i].q == q && SentOf(tr[..i], q) != []
      ensures !(tr[j].Sent? && tr[j].q == q)
    {
      WellBehavedAt(tr, j);
      FinishedMeaning(tr[..j], q);
      assert tr[..j][i] == tr[i] && tr[..j][..i] == tr[..i];
    }
  }

  /** The i-th retransmission is armed with the first timeout doubled i times, capped at
      `maxRto`; an armed deadline is the last send time plus its timeout, which the record
      of the number has stored. */
  ghost predicate DoublingTimeouts(cc: Settings, s: State, q: nat) {
    var l, rec := SentOf(s.trace, q), RecordOf(s.rtt.history, q);
    && (forall i :: 0 <= i < |l| ==> l[i].1 == Backoff(cc.rtt, l[0].1, i))
    && (l != [] ==> 0.0 < l[0].1 <= cc.rtt.maxRto)
    && (q in s.timeouts ==> l != [] && s.timeouts[q] == l[|l| - 1].0 + l[|l| - 1].1)
    && (rec.Some? ==> l != [] && rec.value.rto == l[|l| - 1].1)
  }

  /** Exponential backoff in closed form (section 5 of RFC 6298), in every run. */
  lemma BackoffClosedForm(cc: Settings, k: Correlativity, evs: seq<Event>, q: nat)
    requires cc.rtt.Valid() && k.Valid()
    ensures DoublingTimeouts(cc, Run(cc, k, InitialState(cc), evs), q)
  {
    RunKeeps(cc, k, evs);
    BackoffFromInvariant(cc, Run(cc, k, InitialState(cc), evs), q);
  }

  lemma BackoffFromInvariant(cc: Settings, s: State, q: nat)
    requires Inv(cc, s)
    ensures DoublingTimeouts(cc, s, q)
  {
    assert SeqInv(cc, s, q);
  }

  /** The containers agree in every reachable state. */
  lemma ContainersAgree(cc: Settings, k: Correlativity, evs: seq<Event>)
    requires cc.rtt.Valid() && k.Valid()
    ensures var s := Run(cc, k, InitialState(cc), evs);
            && s.fullDelay.Keys == s.lastDelay.Keys == s.retxCounts.Keys && s.timeouts.Keys <= s.retxCounts.Keys
            && (forall q :: q in s.retxCounts ==>
                  s.retxCounts[q] == |SentOf(s.trace, q)| && s.fullDelay[q] <= s.lastDelay[q] <= s.now)
            && DistinctSeqs(s.rtt.history)
            && forall i :: 0 <= i < |s.trace| && s.trace[i].Delivered? && s.trace[i].sinceLast.Some? ==>
                             s.trace[i].sinceFirst.Some? &&
                                 0.0 <= s.trace[i].sinceLast.value <= s.trace[i].sinceFirst.value
  {
    RunKeeps(cc, k, evs);
    var s := Run(cc, k, InitialState(cc), evs);
    forall q ensures (q in s.fullDelay <==> q in s.retxCounts) && (q in s.lastDelay <==> q in s.retxCounts)
             ensures q in s.timeouts ==> q in s.retxCounts
             ensures q in s.retxCounts ==>
                       s.retxCounts[q] == |SentOf(s.trace, q)| && s.fullDelay[q] <= s.lastDelay[q] <= s.now {
      assert SeqInv(cc, s, q);
    }
    forall i | 0 <= i < |s.trace| && s.trace[i].Delivered? && s.trace[i].sinceLast.Some?
      ensures s.trace[i].sinceFirst.Some? && 0.0 <= s.trace[i].sinceLast.value <= s.trace[i].sinceFirst.value
    {
      WellBehavedAt(s.trace, i);
    }
  }

  /** `OnTimeout` re-arms its sequence number for a later time, if at all, and leaves
      the other deadlines alone. */
  lemma TimeoutRearmsLater(cc: Settings, k: Correlativity, s: State, q: nat, same: bool)
    requires cc.rtt.Valid() && k.Valid() && Inv(cc, s) && q in s.timeouts
    ensures var s' := OnTimeout(cc, k, s.(timeouts := s.timeouts - {q}), q, same);
            && s'.now == s.now
            && (forall p :: p != q ==> SameEntry(s.timeouts, s'.timeouts, p))
            && (q in s'.timeouts ==> s'.timeouts[q] > s.now)
  {
    var s2 := Marked(cc, s, q);
    if CountOf(s.retxCounts, q) < cc.retxNum {
      TimeoutReady(cc, s, s2, q);
      TimeoutMeaning(cc, k, s, q, same);
      var name := GetName(s2.rtt.history, q);
      if name != [] {
        RecordTimeoutPositive(cc, s2, q);
        ArmRtoPositive(cc, k, s2.rtt, q, name, same, s.now);
      }
    }
  }

  lemma RecordTimeoutPositive(cc: Settings, s: State, q: nat)
    requires cc.rtt.Valid() && SeqInv(cc, s, q)
    ensures RecordOf(s.rtt.history, q).Some? ==> RecordOf(s.rtt.history, q).value.rto > 0.0
  {
  }
}
