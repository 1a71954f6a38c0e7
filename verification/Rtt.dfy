/** The round-trip estimator of the consumer: smoothed RTT and deviation, backoff
    multiplier, and the history of transmitted Interests. Times are in seconds. */
module Rtt {
  import opened Options

  /** A name component: text, or the sequence number a consumer appends. */
  datatype Component = Label(text: string) | SeqNo(n: nat)

  type Name = seq<Component>

  datatype Config = Config(minRto: real, maxRto: real, maxMultiplier: nat, gain: real, gain2: real, initialRtt: real)
  {
    predicate Valid() {
      0.0 < minRto <= maxRto && maxMultiplier >= 1 && 0.0 < gain < 1.0 && 0.0 < gain2 < 1.0
    }
  }

  /** One transmitted Interest; `rcvAt` equals `sentAt` until its Data arrives. */
  datatype Record = Record(seqNo: nat, sentAt: real, rcvAt: real, rto: real, retx: bool, name: Name)

  datatype Estimator = Estimator(estimate: real, variance: real, nSamples: nat, multiplier: nat, history: seq<Record>)

  function Initial(c: Config): Estimator { Estimator(c.initialRtt, 0.0, 0, 1, []) }

  function Min(a: real, b: real): real { if a <= b then a else b }

  function Max(a: real, b: real): real { if a >= b then a else b }

  function Abs(x: real): real { if x < 0.0 then -x else x }

  function Pow2(k: nat): (p: nat)
    ensures p >= 1
  {
    if k == 0 then 1 else 2 * Pow2(k - 1)
  }

  // ------------------------------------------------------------------ samples

  function Measure(c: Config, e: Estimator, m: real): Estimator {
    if e.nSamples != 0 then
      var err := m - e.estimate;
      var difference := Abs(err) - e.variance;
      e.(estimate := e.estimate + err * c.gain, variance := e.variance + difference * c.gain2,
          nSamples := e.nSamples + 1)
    else
      e.(estimate := m, variance := m / 2.0, nSamples := 1)
  }

  function MeasureAll(c: Config, e: Estimator, ms: seq<real>): Estimator {
    if ms == [] then e else Measure(c, MeasureAll(c, e, ms[..|ms| - 1]), ms[|ms| - 1])
  }

  // The solver treats products as opaque; these lemmas state what is needed of them.

  function Times(x: real, y: real): real { x * y }

  lemma SplitTimes(x: real, y: real, a: real, b: real)
    requires x == a + b
    ensures Times(x, y) == Times(a, y) + Times(b, y)
  {
  }

  lemma ScaleBetween(lo: real, x: real, hi: real, v: real)
    requires lo <= x <= hi && v >= 0.0
    ensures Times(v, lo) <= Times(v, x) <= Times(v, hi)
  {
  }

  lemma DivideOut(x: real, d: real)
    requires d > 0.0 && Times(x, d) == d
    ensures x == 1.0
  {
  }

  lemma Gap(a: real, b: real, g: real)
    requires a <= b && 0.0 <= g
    ensures (b - a) * g >= 0.0
  {
  }

  lemma GapRest(a: real, b: real, g: real)
    requires a <= b && g <= 1.0
    ensures (b - a) * (1.0 - g) >= 0.0
  {
  }

  /** A weighted mean stays between its parts. */
  lemma MeanBetween(a: real, b: real, g: real, lo: real, hi: real)
    requires 0.0 <= g <= 1.0 && lo <= a <= hi && lo <= b <= hi
    ensures lo <= a + (b - a) * g <= hi
  {
    Gap(lo, b, g);
    Gap(b, hi, g);
    GapRest(lo, a, g);
    GapRest(a, hi, g);
  }

  /** Section 2 of RFC 6298: the first sample R sets SRTT to R and RTTVAR to R/2;
      later ones are smoothed with the two gains, RTTVAR first. */
  lemma FollowsRfc6298(c: Config, e: Estimator, m: real)
    ensures var e' := Measure(c, e, m);
            if e.nSamples == 0 then e'.estimate == m && e'.variance == m / 2.0
            else && e'.variance == (1.0 - c.gain2) * e.variance + c.gain2 * Abs(e.estimate - m)
                 && e'.estimate == (1.0 - c.gain) * e.estimate + c.gain * m
  {
  }

  /** Over any samples the estimate lies between the smallest and the largest, and
      the deviation is non-negative and never above the largest. */
  lemma {:induction false} SamplesBound(c: Config, e: Estimator, ms: seq<real>, lo: real, hi: real)
    requires c.Valid() && e.nSamples == 0 && ms != [] && 0.0 <= lo
    requires forall m :: m in ms ==> lo <= m <= hi
    ensures var e' := MeasureAll(c, e, ms);
            e'.nSamples == |ms| && lo <= e'.estimate <= hi && 0.0 <= e'.variance <= hi
  {
    var init, m := ms[..|ms| - 1], ms[|ms| - 1];
    assert ms[|ms| - 1] in ms && forall x :: x in init ==> x in ms;
    if init != [] {
      SamplesBound(c, e, init, lo, hi);
      MeasureBound(c, MeasureAll(c, e, init), m, lo, hi);
    }
  }

  lemma MeasureBound(c: Config, e: Estimator, m: real, lo: real, hi: real)
    requires c.Valid() && e.nSamples != 0 && 0.0 <= lo <= m <= hi
    requires lo <= e.estimate <= hi && 0.0 <= e.variance <= hi
    ensures var e' := Measure(c, e, m); lo <= e'.estimate <= hi && 0.0 <= e'.variance <= hi
  {
    MeanBetween(e.estimate, m, c.gain, lo, hi);
    MeanBetween(e.variance, Abs(m - e.estimate), c.gain2, 0.0, hi);
  }

  // ------------------------------------------------------------------- multiplier

  function IncreaseMultiplier(c: Config, e: Estimator): Estimator {
    e.(multiplier := if e.multiplier * 2 < c.maxMultiplier then e.multiplier * 2 else c.maxMultiplier)
  }

  function ResetMultiplier(e: Estimator): Estimator { e.(multiplier := 1) }

  datatype MultiplierEvent = TimedOut | ValidSample

  function MultiplierAfter(c: Config, e: Estimator, evs: seq<MultiplierEvent>): Estimator {
    if evs == [] then e
    else
      var e1 := MultiplierAfter(c, e, evs[..|evs| - 1]);
      if evs[|evs| - 1].TimedOut? then IncreaseMultiplier(c, e1) else ResetMultiplier(e1)
  }

  /** Timeouts since the last valid sample. */
  function TimeoutsSinceReset(evs: seq<MultiplierEvent>): nat {
    if evs == [] || evs[|evs| - 1].ValidSample? then 0 else 1 + TimeoutsSinceReset(evs[..|evs| - 1])
  }

  lemma {:induction false} MultiplierClosedForm(c: Config, e: Estimator, evs: seq<MultiplierEvent>)
    requires c.Valid() && e.multiplier == 1
    ensures var k := TimeoutsSinceReset(evs);
            MultiplierAfter(c, e, evs).multiplier == if Pow2(k) < c.maxMultiplier then Pow2(k) else c.maxMultiplier
  {
    if evs != [] {
      MultiplierClosedForm(c, e, evs[..|evs| - 1]);
    }
  }

  function RetransmitTimeout(c: Config, e: Estimator): real {
    Min(c.maxRto, Max(e.multiplier as real * c.minRto, e.multiplier as real * (e.estimate + 4.0 * e.variance)))
  }

  lemma MultipliedNotBelow(m: real, x: real)
    requires m >= 1.0 && x >= 0.0
    ensures m * x >= x
  {
    assert (m - 1.0) * x >= 0.0;
  }

  lemma RetransmitTimeoutInRange(c: Config, e: Estimator)
    requires c.Valid() && e.multiplier >= 1
    ensures c.minRto <= RetransmitTimeout(c, e) <= c.maxRto
  {
    MultipliedNotBelow(e.multiplier as real, c.minRto);
  }

  /** Between its limits the timeout exceeds the multiplied estimate by four multiplied
      deviations (section 2 of RFC 6298); at the lower limit these would not reach it, and
      the upper one is given only if they, or the lower limit, do. */
  lemma PlainTimeout(c: Config, e: Estimator)
    ensures var m, rto := e.multiplier as real, RetransmitTimeout(c, e);
            var value := m * e.estimate + 4.0 * (m * e.variance);
            && rto <= c.maxRto
            && (rto < c.maxRto ==> rto >= m * c.minRto && rto >= value)
            && (m * c.minRto < rto < c.maxRto ==> rto - m * e.estimate == 4.0 * (m * e.variance))
            && (rto == c.maxRto ==> m * c.minRto >= rto || value >= rto)
  {
    FourDeviations(e.multiplier as real, e.estimate, e.variance);
  }

  lemma FourDeviations(m: real, x: real, v: real)
    ensures m * (x + 4.0 * v) == m * x + 4.0 * (m * v)
  {
  }

  function Timeouts(k: nat): (evs: seq<MultiplierEvent>)
    ensures |evs| == k && forall i :: 0 <= i < k ==> evs[i] == TimedOut
  {
    seq(k, i => TimedOut)
  }

  /** After the first sample the timeout is three times that sample, and doubles, minimum
      and all, with every timeout up to the largest multiplier. */
  lemma FirstSampleTimeout(c: Config, r: real, k: nat, m: nat)
    requires c.Valid() && m == if Pow2(k) < c.maxMultiplier then Pow2(k) else c.maxMultiplier
    ensures RetransmitTimeout(c, MultiplierAfter(c, MeasureAll(c, Initial(c), [r]), Timeouts(k))) ==
            Min(c.maxRto, Max(m as real * c.minRto, m as real * (3.0 * r)))
  {
    var e := MeasureAll(c, Initial(c), [r]);
    FirstSample(c, r);
    MultiplierClosedForm(c, e, Timeouts(k));
    AllTimeouts(k);
    MultiplierOnly(c, e, Timeouts(k));
    ThreeTimes(c, MultiplierAfter(c, e, Timeouts(k)), r, m);
  }

  lemma FirstSample(c: Config, r: real)
    ensures MeasureAll(c, Initial(c), [r]) == Estimator(r, r / 2.0, 1, 1, [])
  {
    assert [r][..0] == [] && MeasureAll(c, Initial(c), [r][..0]) == Initial(c);
  }

  lemma ThreeTimes(c: Config, e: Estimator, r: real, m: nat)
    requires e.estimate == r && e.variance == r / 2.0 && e.multiplier == m
    ensures RetransmitTimeout(c, e) == Min(c.maxRto, Max(m as real * c.minRto, m as real * (3.0 * r)))
  {
    assert e.estimate + 4.0 * e.variance == 3.0 * r;
  }

  lemma {:induction false} AllTimeouts(k: nat)
    ensures TimeoutsSinceReset(Timeouts(k)) == k
  {
    if k > 0 {
      AllTimeouts(k - 1);
      assert Timeouts(k)[..k - 1] == Timeouts(k - 1);
    }
  }

  lemma {:induction false} MultiplierOnly(c: Config, e: Estimator, evs: seq<MultiplierEvent>)
    ensures var e' := MultiplierAfter(c, e, evs); e' == e.(multiplier := e'.multiplier)
  {
    if evs != [] {
      MultiplierOnly(c, e, evs[..|evs| - 1]);
    }
  }

  // ----------------------------------------------------------------------- history

  function Find(h: seq<Record>, q: nat): (i: nat)
    ensures i <= |h|
    ensures i < |h| ==> h[i].seqNo == q
    ensures forall j :: 0 <= j < i ==> h[j].seqNo != q
  {
    if h == [] || h[0].seqNo == q then 0 else 1 + Find(h[1..], q)
  }

  predicate Has(h: seq<Record>, q: nat) { Find(h, q) < |h| }

  ghost predicate DistinctSeqs(h: seq<Record>) {
    forall i, j :: 0 <= i < j < |h| ==> h[i].seqNo != h[j].seqNo
  }

  function RecordOf(h: seq<Record>, q: nat): Option<Record> {
    if Has(h, q) then Some(h[Find(h, q)]) else None
  }

  /** Twice the stored timeout, capped; zero without a record. */
  function GetRetransRto(c: Config, h: seq<Record>, q: nat): real {
    if Has(h, q) then Min(c.maxRto, h[Find(h, q)].rto * 2.0) else 0.0
  }

  function GetName(h: seq<Record>, q: nat): Name {
    if Has(h, q) then h[Find(h, q)].name else []
  }

  function SetRetransmit(h: seq<Record>, q: nat): seq<Record> {
    if Has(h, q) then h[Find(h, q) := h[Find(h, q)].(retx := true)] else h
  }

  function SetInterestInfo(h: seq<Record>, name: Name, q: nat, now: real, rto: real): seq<Record> {
    if Has(h, q) then h[Find(h, q) := h[Find(h, q)].(retx := true, rto := rto)]
    else h + [Record(q, now, now, rto, false, name)]
  }

  function RemoveAt(h: seq<Record>, i: nat): seq<Record>
    requires i < |h|
  {
    h[..i] + h[i + 1..]
  }

  function Discard(h: seq<Record>, q: nat): seq<Record> {
    if Has(h, q) then RemoveAt(h, Find(h, q)) else h
  }

  /** The records received, or sent and not yet received, at most `age` ago. */
  function Purge(h: seq<Record>, now: real, age: real): seq<Record> {
    if h == [] then []
    else
      var rest := Purge(h[..|h| - 1], now, age);
      if now - h[|h| - 1].rcvAt > age then rest else rest + [h[|h| - 1]]
  }

  /** The Data for `q` arrives: a sample if its record was never marked as
      retransmitted; a marked record is dropped. */
  function Ack(c: Config, e: Estimator, q: nat, now: real): (r: (Estimator, Option<real>)) {
    if !Has(e.history, q) then (e, None)
    else
      var i := Find(e.history, q);
      var rec := e.history[i];
      if rec.retx then (e.(history := RemoveAt(e.history, i)), None)
      else
        var m := now - rec.sentAt;
        (ResetMultiplier(Measure(c, e.(history := e.history[i := rec.(rcvAt := now)]), m)), Some(m))
  }

  // Each history operation touches the record of one sequence number only.

  lemma {:induction false} FindUnique(h: seq<Record>, q: nat, i: nat)
    requires i <= |h| && (forall j :: 0 <= j < i ==> h[j].seqNo != q) && (i < |h| ==> h[i].seqNo == q)
    ensures Find(h, q) == i
  {
  }

  lemma UpdateRecord(h: seq<Record>, i: nat, rec: Record, q: nat)
    requires DistinctSeqs(h) && i < |h| && rec.seqNo == h[i].seqNo
    ensures DistinctSeqs(h[i := rec])
    ensures RecordOf(h[i := rec], q) == if q == rec.seqNo then Some(rec) else RecordOf(h, q)
  {
    FindUnique(h[i := rec], q, if q == rec.seqNo then i else Find(h, q));
  }

  lemma AppendRecord(h: seq<Record>, rec: Record, q: nat)
    requires DistinctSeqs(h) && !Has(h, rec.seqNo)
    ensures DistinctSeqs(h + [rec])
    ensures RecordOf(h + [rec], q) == if q == rec.seqNo then Some(rec) else RecordOf(h, q)
  {
    FindUnique(h + [rec], q, if q == rec.seqNo then |h| else if Has(h, q) then Find(h, q) else |h| + 1);
  }

  lemma RemoveRecord(h: seq<Record>, i: nat, q: nat)
    requires DistinctSeqs(h) && i < |h|
    ensures DistinctSeqs(RemoveAt(h, i))
    ensures RecordOf(RemoveAt(h, i), q) == if q == h[i].seqNo then None else RecordOf(h, q)
  {
    var r := RemoveAt(h, i);
    assert forall j :: 0 <= j < |r| ==> r[j] == h[if j < i then j else j + 1];
    var k := Find(h, q);
    FindUnique(r, q, if q == h[i].seqNo then |r| else if k < i then k else k - 1);
  }

  lemma {:induction false} PurgeKeeps(h: seq<Record>, now: real, age: real, q: nat)
    requires DistinctSeqs(h)
    ensures DistinctSeqs(Purge(h, now, age))
    ensures RecordOf(Purge(h, now, age), q) == RecordOf(h, q) || RecordOf(Purge(h, now, age), q) == None
    ensures forall r :: r in Purge(h, now, age) ==> r in h
  {
    if h != [] {
      var init, last := h[..|h| - 1], h[|h| - 1];
      assert h == init + [last];
      PurgeKeeps(init, now, age, q);
      var rest := Purge(init, now, age);
      assert !Has(init, last.seqNo);
      AppendRecord(init, last, q);
      assert forall j :: 0 <= j < |rest| ==> rest[j] in rest && rest[j] in init;
      assert !Has(rest, last.seqNo);
      AppendRecord(rest, last, q);
    }
  }

  /** Purging keeps exactly the records received, or sent and not received, at most `age`
      ago, in their order: it goes through the history piece by piece. */
  lemma {:induction false} PurgeSplits(a: seq<Record>, b: seq<Record>, now: real, age: real)
    ensures Purge(a + b, now, age) == Purge(a, now, age) + Purge(b, now, age)
  {
    if b == [] {
      assert a + b == a && Purge(a, now, age) + [] == Purge(a, now, age);
    } else {
      assert (a + b)[..|a + b| - 1] == a + b[..|b| - 1];
      PurgeSplits(a, b[..|b| - 1], now, age);
    }
  }

  lemma {:induction false} PurgeMembers(h: seq<Record>, now: real, age: real, r: Record)
    ensures r in Purge(h, now, age) <==> r in h && now - r.rcvAt <= age
    ensures Purge([r], now, age) == if now - r.rcvAt <= age then [r] else []
  {
    assert [r][..0] == [];
    if h != [] {
      var init, last := h[..|h| - 1], h[|h| - 1];
      assert r in h <==> r in init || r == last;
      PurgeMembers(init, now, age, r);
    }
  }

  // ------------------------------------------------------- correlativity weighted

  /** The correlation functions of names (application and spatial) and of age. */
  datatype Correlativity = Correlativity(app: (Name, Name) -> real, spatial: (Name, Name) -> real,
                                         temporal: real -> real)
  {
    ghost predicate Valid() {
      && (forall a, b :: app(a, b) >= 0.0) && (forall a, b :: spatial(a, b) >= 0.0)
      && (forall t :: temporal(t) > 0.0)
    }
  }

  const THREE_MINUTES: real := 180.0

  /** A past Interest that contributes to the estimate of a new one. */
  datatype Contribution = Contribution(sCo: real, aCo: real, tCo: real, rtt: real)

  function ContributionOf(k: Correlativity, name: Name, now: real, r: Record): Contribution {
    Contribution(k.app(name, r.name), k.spatial(name, r.name), k.temporal(now - r.rcvAt), r.rcvAt - r.sentAt)
  }

  predicate Contributes(k: Correlativity, name: Name, now: real, r: Record) {
    && r.rcvAt > r.sentAt && now - r.rcvAt <= THREE_MINUTES
    && (k.app(name, r.name) > 0.0 || k.spatial(name, r.name) > 0.0)
  }

  function Contributions(h: seq<Record>, k: Correlativity, name: Name, now: real): seq<Contribution> {
    if h == [] then []
    else
      var rest := Contributions(h[..|h| - 1], k, name, now);
      var r := h[|h| - 1];
      if Contributes(k, name, now, r) then rest + [ContributionOf(k, name, now, r)] else rest
  }

  datatype Sums = Sums(s: real, a: real, t: real)

  function SumOf(cs: seq<Contribution>): Sums {
    if cs == [] then Sums(0.0, 0.0, 0.0)
    else
      var rest, c := SumOf(cs[..|cs| - 1]), cs[|cs| - 1];
      Sums(rest.s + c.sCo, rest.a + c.aCo, rest.t + c.tCo)
  }

  lemma NextContribution(h: seq<Record>, i: nat, k: Correlativity, name: Name, now: real)
    requires i < |h|
    ensures var before := Contributions(h[..i], k, name, now);
            Contributions(h[..i + 1], k, name, now) ==
            if Contributes(k, name, now, h[i]) then before + [ContributionOf(k, name, now, h[i])] else before
  {
    assert h[..i + 1][..i] == h[..i];
  }

  lemma CollectStep(h: seq<Record>, i: nat, k: Correlativity, name: Name, now: real, before: seq<Contribution>,
                    was: Sums, cs: seq<Contribution>, u: Sums)
    requires i < |h| && before == Contributions(h[..i], k, name, now) && was == SumOf(before)
    requires var c := ContributionOf(k, name, now, h[i]);
             if Contributes(k, name, now, h[i])
             then cs == before + [c] && u == Sums(was.s + c.sCo, was.a + c.aCo, was.t + c.tCo)
             else cs == before && u == was
    ensures cs == Contributions(h[..i + 1], k, name, now) && u == SumOf(cs)
  {
    NextContribution(h, i, k, name, now);
    NextSum(before, ContributionOf(k, name, now, h[i]));
  }

  lemma NextSum(cs: seq<Contribution>, c: Contribution)
    ensures var u := SumOf(cs); SumOf(cs + [c]) == Sums(u.s + c.sCo, u.a + c.aCo, u.t + c.tCo)
  {
    assert (cs + [c])[..|cs|] == cs;
  }

  /** The share of one contribution, by which of the three sums are zero. */
  function Weight(c: Contribution, u: Sums): real {
    if u.t == 0.0 then 0.0
    else if u.s != 0.0 && u.a != 0.0 then
      (c.sCo * u.a * u.t + c.aCo * u.s * u.t + c.tCo * u.s * u.a) / (3.0 * u.s * u.a * u.t)
    else if u.a != 0.0 then (c.aCo * u.t + c.tCo * u.a) / (2.0 * u.a * u.t)
    else if u.s != 0.0 then (c.sCo * u.t + c.tCo * u.s) / (2.0 * u.s * u.t)
    else c.tCo / u.t
  }

  function TotalWeight(cs: seq<Contribution>, u: Sums): real {
    if cs == [] then 0.0 else TotalWeight(cs[..|cs| - 1], u) + Weight(cs[|cs| - 1], u)
  }

  function WeightedRtt(cs: seq<Contribution>, u: Sums): real {
    if cs == [] then 0.0
    else WeightedRtt(cs[..|cs| - 1], u) + Times(Weight(cs[|cs| - 1], u), cs[|cs| - 1].rtt)
  }

  function Clamp(c: Config, x: real): real { Min(c.maxRto, Max(c.minRto, x)) }

  /** The timeout for a first transmission, and the history it leaves. */
  function RtoByCorrelativity(c: Config, e: Estimator, k: Correlativity, name: Name, now: real): real {
    var cs := Contributions(Purge(e.history, now, THREE_MINUTES), k, name, now);
    var u := SumOf(cs);
    Clamp(c, if cs == [] || u.t == 0.0 then e.estimate else WeightedRtt(cs, u))
  }

  ghost predicate Positive(cs: seq<Contribution>) {
    forall c :: c in cs ==> c.sCo >= 0.0 && c.aCo >= 0.0 && c.tCo > 0.0 && (c.sCo > 0.0 || c.aCo > 0.0)
  }

  lemma {:induction false} ContributionsPositive(h: seq<Record>, k: Correlativity, name: Name, now: real)
    requires k.Valid()
    ensures Positive(Contributions(h, k, name, now))
  {
    if h != [] {
      ContributionsPositive(h[..|h| - 1], k, name, now);
    }
  }

  lemma {:induction false} SumsPositive(cs: seq<Contribution>)
    requires Positive(cs)
    ensures var u := SumOf(cs); u.s >= 0.0 && u.a >= 0.0 && u.t >= 0.0
    ensures var u := SumOf(cs); cs != [] ==> u.t > 0.0 && (u.s > 0.0 || u.a > 0.0)
  {
    if cs != [] {
      var init, last := cs[..|cs| - 1], cs[|cs| - 1];
      assert last in cs && forall c :: c in init ==> c in cs;
      SumsPositive(init);
    }
  }

  /** The common denominator of the weights, and the numerator of one of them. */
  function Denominator(u: Sums): real {
    if u.s != 0.0 && u.a != 0.0 then 3.0 * u.s * u.a * u.t
    else if u.a != 0.0 then 2.0 * u.a * u.t
    else 2.0 * u.s * u.t
  }

  function Numerator(s: real, a: real, t: real, u: Sums): real {
    if u.s != 0.0 && u.a != 0.0 then s * u.a * u.t + a * u.s * u.t + t * u.s * u.a
    else if u.a != 0.0 then a * u.t + t * u.a
    else s * u.t + t * u.s
  }

  lemma WeightIsQuotient(c: Contribution, u: Sums)
    requires u.s >= 0.0 && u.a >= 0.0 && u.t > 0.0 && (u.s > 0.0 || u.a > 0.0)
    requires c.sCo >= 0.0 && c.aCo >= 0.0 && c.tCo >= 0.0
    ensures Denominator(u) > 0.0
    ensures Weight(c, u) >= 0.0
    ensures Times(Weight(c, u), Denominator(u)) == Numerator(c.sCo, c.aCo, c.tCo, u)
  {
  }

  lemma NumeratorAdds(s: real, a: real, t: real, s': real, a': real, t': real, u: Sums)
    ensures Numerator(s, a, t, u) + Numerator(s', a', t', u) == Numerator(s + s', a + a', t + t', u)
  {
  }

  /** The weights of some contributions add up to the numerator of their sums. */
  lemma {:induction false} TotalWeightScaled(cs: seq<Contribution>, u: Sums)
    requires Positive(cs)
    requires u.s >= 0.0 && u.a >= 0.0 && u.t > 0.0 && (u.s > 0.0 || u.a > 0.0)
    ensures var p := SumOf(cs); Times(TotalWeight(cs, u), Denominator(u)) == Numerator(p.s, p.a, p.t, u)
  {
    if cs != [] {
      var init, c := cs[..|cs| - 1], cs[|cs| - 1];
      assert c in cs && forall x :: x in init ==> x in cs;
      TotalWeightScaled(init, u);
      WeightIsQuotient(c, u);
      var p := SumOf(init);
      NumeratorAdds(p.s, p.a, p.t, c.sCo, c.aCo, c.tCo, u);
      SplitTimes(TotalWeight(cs, u), Denominator(u), TotalWeight(init, u), Weight(c, u));
    } else {
      SplitTimes(TotalWeight(cs, u), Denominator(u), 0.0, 0.0);
      assert Numerator(0.0, 0.0, 0.0, u) == 0.0;
    }
  }

  lemma {:induction false} WeightedBetween(cs: seq<Contribution>, u: Sums, lo: real, hi: real)
    requires Positive(cs)
    requires u.s >= 0.0 && u.a >= 0.0 && u.t > 0.0 && (u.s > 0.0 || u.a > 0.0)
    requires forall c :: c in cs ==> lo <= c.rtt <= hi
    ensures Times(TotalWeight(cs, u), lo) <= WeightedRtt(cs, u) <= Times(TotalWeight(cs, u), hi)
  {
    if cs != [] {
      var init, c := cs[..|cs| - 1], cs[|cs| - 1];
      assert c in cs && forall x :: x in init ==> x in cs;
      WeightedBetween(init, u, lo, hi);
      WeightIsQuotient(c, u);
      ScaleBetween(lo, c.rtt, hi, Weight(c, u));
      SplitTimes(TotalWeight(cs, u), lo, TotalWeight(init, u), Weight(c, u));
      SplitTimes(TotalWeight(cs, u), hi, TotalWeight(init, u), Weight(c, u));
    } else {
      SplitTimes(TotalWeight(cs, u), lo, 0.0, 0.0);
      SplitTimes(TotalWeight(cs, u), hi, 0.0, 0.0);
    }
  }

  lemma WeightsSumToOne(cs: seq<Contribution>)
    requires Positive(cs) && cs != []
    ensures TotalWeight(cs, SumOf(cs)) == 1.0
  {
    var u := SumOf(cs);
    SumsPositive(cs);
    TotalWeightScaled(cs, u);
    DenominatorIsNumerator(u);
    DivideOut(TotalWeight(cs, u), Denominator(u));
  }

  lemma DenominatorIsNumerator(u: Sums)
    requires u.s >= 0.0 && u.a >= 0.0 && u.t > 0.0 && (u.s > 0.0 || u.a > 0.0)
    ensures Numerator(u.s, u.a, u.t, u) == Denominator(u) > 0.0
  {
  }

  /** The unclamped timeout is a convex combination of the contributing round-trip
      times: the weights are non-negative and sum to one, so it lies between the
      smallest and the largest; the sums are never all zero. */
  lemma ConvexCombination(cs: seq<Contribution>, lo: real, hi: real)
    requires Positive(cs) && cs != []
    requires forall c :: c in cs ==> lo <= c.rtt <= hi
    ensures var u := SumOf(cs);
            && u.t > 0.0 && (u.s > 0.0 || u.a > 0.0)
            && (forall c :: c in cs ==> Weight(c, u) >= 0.0)
            && TotalWeight(cs, u) == 1.0
            && lo <= WeightedRtt(cs, u) <= hi
  {
    var u := SumOf(cs);
    SumsPositive(cs);
    WeightsSumToOne(cs);
    WeightedBetween(cs, u, lo, hi);
    forall c | c in cs ensures Weight(c, u) >= 0.0 {
      WeightIsQuotient(c, u);
    }
  }

  /** The timeout of a first transmission is in range, and when past Interests
      contribute it lies between the clamped smallest and largest of their times. */
  lemma RtoByCorrelativityBounds(c: Config, e: Estimator, k: Correlativity, name: Name, now: real, lo: real, hi: real)
    requires c.Valid() && k.Valid()
    requires var cs := Contributions(Purge(e.history, now, THREE_MINUTES), k, name, now);
             forall x :: x in cs ==> lo <= x.rtt <= hi
    ensures var cs := Contributions(Purge(e.history, now, THREE_MINUTES), k, name, now);
            var rto := RtoByCorrelativity(c, e, k, name, now);
            && c.minRto <= rto <= c.maxRto
            && (if cs == [] then rto == Clamp(c, e.estimate) else Clamp(c, lo) <= rto <= Clamp(c, hi))
  {
    var h := Purge(e.history, now, THREE_MINUTES);
    var cs := Contributions(h, k, name, now);
    ContributionsPositive(h, k, name, now);
    if cs != [] {
      ConvexCombination(cs, lo, hi);
    }
  }

  // -------------------------------------------------------------------- the class

  class RttMeanDeviation {
    const config: Config
    var currentEstimatedRtt: real
    var variance: real
    var nSamples: nat
    var multiplier: nat
    var history: seq<Record>

    function View(): Estimator
      reads this
    {
      Estimator(currentEstimatedRtt, variance, nSamples, multiplier, history)
    }

    constructor (c: Config)
      ensures config == c && View() == Initial(c)
    {
      config := c;
      currentEstimatedRtt, variance, nSamples, multiplier, history := c.initialRtt, 0.0, 0, 1, [];
    }

    method Measurement(m: real)
      modifies this
      ensures View() == Measure(config, old(View()), m)
    {
      if nSamples != 0 {
        var err := m - currentEstimatedRtt;
        currentEstimatedRtt := currentEstimatedRtt + err * config.gain;
        var difference := Abs(err) - variance;
        variance := variance + difference * config.gain2;
      } else {
        currentEstimatedRtt := m;
        variance := m / 2.0;
      }
      nSamples := nSamples + 1;
    }

    method BackOff()
      modifies this`multiplier
      ensures View() == IncreaseMultiplier(config, old(View()))
    {
      multiplier := if multiplier * 2 < config.maxMultiplier then multiplier * 2 else config.maxMultiplier;
    }

    /** The linear search all the history operations share. */
    method FindRecord(q: nat) returns (i: nat)
      ensures i == Find(history, q)
    {
      i := 0;
      while i < |history| && history[i].seqNo != q
        invariant i <= |history|
        invariant forall j :: 0 <= j < i ==> history[j].seqNo != q
      {
        i := i + 1;
      }
      FindUnique(history, q, i);
    }

    method RetransRtoBySeq(q: nat) returns (rto: real)
      ensures rto == GetRetransRto(config, history, q)
    {
      rto := 0.0;
      var i := FindRecord(q);
      if i < |history| {
        rto := Min(config.maxRto, history[i].rto * 2.0);
      }
    }

    method NameBySeq(q: nat) returns (name: Name)
      ensures name == GetName(history, q)
    {
      name := [];
      var i := FindRecord(q);
      if i < |history| {
        name := history[i].name;
      }
    }

    method MarkRetransmitted(q: nat)
      modifies this`history
      ensures View() == old(View()).(history := SetRetransmit(old(history), q))
    {
      var i := FindRecord(q);
      if i < |history| {
        history := history[i := history[i].(retx := true)];
      }
    }

    method StoreInterest(name: Name, q: nat, now: real, rto: real)
      modifies this`history
      ensures View() == old(View()).(history := SetInterestInfo(old(history), name, q, now, rto))
    {
      var i := FindRecord(q);
      if i < |history| {
        history := history[i := history[i].(retx := true, rto := rto)];
      } else {
        history := history + [Record(q, now, now, rto, false, name)];
      }
    }

    method DiscardInterest(q: nat)
      modifies this`history
      ensures View() == old(View()).(history := Discard(old(history), q))
    {
      var i := FindRecord(q);
      if i < |history| {
        history := history[..i] + history[i + 1..];
      }
    }

    method AckSeq(q: nat, now: real) returns (ghost sample: Option<real>)
      modifies this
      ensures (View(), sample) == Ack(config, old(View()), q, now)
    {
      sample := None;
      var i := FindRecord(q);
      if i < |history| {
        if !history[i].retx {
          history := history[i := history[i].(rcvAt := now)];
          var m := history[i].rcvAt - history[i].sentAt;
          Measurement(m);
          multiplier := 1;
          sample := Some(m);
        } else {
          history := history[..i] + history[i + 1..];
        }
      }
    }

    /** The intent of `UpateRttHistory`, which erases while it iterates. */
    method DropOld(now: real, age: real)
      modifies this`history
      ensures View() == old(View()).(history := Purge(old(history), now, age))
      ensures forall r :: r in history <==> r in old(history) && now - r.rcvAt <= age
    {
      var kept: seq<Record> := [];
      for i := 0 to |history|
        invariant history == old(history)
        invariant kept == Purge(history[..i], now, age)
      {
        assert history[..i + 1][..i] == history[..i];
        if !(now - history[i].rcvAt > age) {
          kept := kept + [history[i]];
        }
      }
      assert history[..|history|] == history;
      forall r ensures r in kept <==> r in old(history) && now - r.rcvAt <= age {
        PurgeMembers(history, now, age, r);
      }
      history := kept;
    }

    /** The first loop of `CalRTObyCorrelativity`: what contributes, and the three sums. */
    method Collect(k: Correlativity, name: Name, now: real) returns (coList: seq<Contribution>, sums: Sums)
      ensures coList == Contributions(history, k, name, now) && sums == SumOf(coList)
    {
      coList, sums := [], Sums(0.0, 0.0, 0.0);
      for i := 0 to |history|
        invariant coList == Contributions(history[..i], k, name, now)
        invariant sums == SumOf(coList)
      {
        ghost var before, was := coList, sums;
        var r := history[i];
        if r.rcvAt > r.sentAt && now - r.rcvAt <= THREE_MINUTES {
          var co := ContributionOf(k, name, now, r);
          if co.sCo > 0.0 || co.aCo > 0.0 {
            coList := coList + [co];
            sums := Sums(sums.s + co.sCo, sums.a + co.aCo, sums.t + co.tCo);
          }
        }
        CollectStep(history, i, k, name, now, before, was, coList, sums);
      }
      assert history[..|history|] == history;
    }

    /** The second loop: the weighted mean, unless there is nothing to average. */
    method Average(coList: seq<Contribution>, sums: Sums) returns (value: real)
      ensures value == if coList == [] || sums.t == 0.0 then currentEstimatedRtt else WeightedRtt(coList, sums)
    {
      value := if |coList| > 0 then 0.0 else currentEstimatedRtt;
      for i := 0 to |coList|
        invariant |coList| > 0 && (sums.t != 0.0 || i == 0) ==> value == WeightedRtt(coList[..i], sums)
        invariant |coList| == 0 ==> value == currentEstimatedRtt
        invariant i > 0 ==> sums.t != 0.0
      {
        assert coList[..i + 1][..i] == coList[..i];
        if sums.t == 0.0 {
          value := currentEstimatedRtt;
          break;
        }
        value := value + Times(Weight(coList[i], sums), coList[i].rtt);
      }
      assert coList[..|coList|] == coList;
    }

    method CalRtoByCorrelativity(k: Correlativity, name: Name, now: real) returns (rto: real)
      modifies this`history
      ensures rto == RtoByCorrelativity(config, old(View()), k, name, now)
      ensures View() == old(View()).(history := Purge(old(history), now, THREE_MINUTES))
      ensures forall r :: r in history <==> r in old(history) && now - r.rcvAt <= 180.0
    {
      DropOld(now, THREE_MINUTES);
      var coList, sums := Collect(k, name, now);
      var value := Average(coList, sums);
      rto := Clamp(config, value);
    }
  }
}
