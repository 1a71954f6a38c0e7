/** What the timeout by correlativity is, in terms of the history records alone. */
module RttCorrelation {
  import opened Rtt

  /** The Interest was answered after it was sent, at most three minutes ago, and its name
      is related to the new one. */
  predicate Informs(k: Correlativity, name: Name, now: real, r: Record) {
    && r.sentAt < r.rcvAt && now - r.rcvAt <= 180.0
    && (k.app(name, r.name) > 0.0 || k.spatial(name, r.name) > 0.0)
  }

  ghost predicate NoneInforms(h: seq<Record>, k: Correlativity, name: Name, now: real) {
    forall r :: r in h ==> !Informs(k, name, now, r)
  }

  /** The three correlations, added up over the records that inform. */
  function Totals(h: seq<Record>, k: Correlativity, name: Name, now: real): Sums {
    if h == [] then Sums(0.0, 0.0, 0.0)
    else
      var rest, r := Totals(h[..|h| - 1], k, name, now), h[|h| - 1];
      if !Informs(k, name, now, r) then rest
      else Sums(rest.s + k.app(name, r.name), rest.a + k.spatial(name, r.name), rest.t + k.temporal(now - r.rcvAt))
  }

  function Share(x: real, total: real): real { if total == 0.0 then 0.0 else x / total }

  /** The mean of the shares a record has in the totals, of those totals that are not zero. */
  function MeanShare(k: Correlativity, name: Name, now: real, r: Record, u: Sums): real {
    (Share(k.app(name, r.name), u.s) + Share(k.spatial(name, r.name), u.a) + Share(k.temporal(now - r.rcvAt), u.t))
    / (if u.s != 0.0 && u.a != 0.0 then 3.0 else if u.s != 0.0 || u.a != 0.0 then 2.0 else 1.0)
  }

  /** The round-trip times of the records that inform, each weighted with its mean share. */
  function WeightedTimes(h: seq<Record>, k: Correlativity, name: Name, now: real, u: Sums): real {
    if h == [] then 0.0
    else
      var rest, r := WeightedTimes(h[..|h| - 1], k, name, now, u), h[|h| - 1];
      if !Informs(k, name, now, r) then rest
      else rest + MeanShare(k, name, now, r, u) * (r.rcvAt - r.sentAt)
  }

  // ------------------------------------------------- the same in terms of contributions

  /** A purged record does not inform. */
  lemma {:induction false} PurgeLosesNothing(h: seq<Record>, k: Correlativity, name: Name, now: real)
    ensures Contributions(Purge(h, now, THREE_MINUTES), k, name, now) == Contributions(h, k, name, now)
  {
    if h != [] {
      var init, last := h[..|h| - 1], h[|h| - 1];
      PurgeLosesNothing(init, k, name, now);
      var rest := Purge(init, now, THREE_MINUTES);
      assert (rest + [last])[..|rest|] == rest;
    }
  }

  lemma {:induction false} TotalsAreSums(h: seq<Record>, k: Correlativity, name: Name, now: real)
    ensures SumOf(Contributions(h, k, name, now)) == Totals(h, k, name, now)
    ensures Contributions(h, k, name, now) == [] <==> NoneInforms(h, k, name, now)
  {
    if h != [] {
      var init, last := h[..|h| - 1], h[|h| - 1];
      TotalsAreSums(init, k, name, now);
      assert forall r :: r in h <==> r in init || r == last;
      var rest := Contributions(init, k, name, now);
      if Informs(k, name, now, last) {
        var c := ContributionOf(k, name, now, last);
        assert (rest + [c])[..|rest|] == rest;
      }
    }
  }

  lemma Third(s: real, a: real, t: real, u: Sums)
    requires u.s > 0.0 && u.a > 0.0 && u.t > 0.0
    ensures (s * u.a * u.t + a * u.s * u.t + t * u.s * u.a) / (3.0 * u.s * u.a * u.t) ==
            (s / u.s + a / u.a + t / u.t) / 3.0
  {
  }

  lemma Half(a: real, t: real, ua: real, ut: real)
    requires ua > 0.0 && ut > 0.0
    ensures (a * ut + t * ua) / (2.0 * ua * ut) == (a / ua + t / ut) / 2.0
  {
  }

  ghost predicate ProperTotals(u: Sums) {
    u.s >= 0.0 && u.a >= 0.0 && u.t > 0.0 && (u.s > 0.0 || u.a > 0.0)
  }

  lemma WeightIsMeanShare(k: Correlativity, name: Name, now: real, r: Record, u: Sums)
    requires ProperTotals(u)
    ensures Weight(ContributionOf(k, name, now, r), u) == MeanShare(k, name, now, r, u)
  {
    var s, a, t := k.app(name, r.name), k.spatial(name, r.name), k.temporal(now - r.rcvAt);
    if u.s != 0.0 && u.a != 0.0 {
      Third(s, a, t, u);
    } else if u.a != 0.0 {
      Half(a, t, u.a, u.t);
    } else {
      Half(s, t, u.s, u.t);
    }
  }

  lemma {:induction false} WeightedTimesAre(h: seq<Record>, k: Correlativity, name: Name, now: real, u: Sums)
    requires ProperTotals(u)
    ensures WeightedRtt(Contributions(h, k, name, now), u) == WeightedTimes(h, k, name, now, u)
  {
    if h != [] {
      var init, last := h[..|h| - 1], h[|h| - 1];
      WeightedTimesAre(init, k, name, now, u);
      if Informs(k, name, now, last) {
        var rest, c := Contributions(init, k, name, now), ContributionOf(k, name, now, last);
        assert (rest + [c])[..|rest|] == rest;
        WeightIsMeanShare(k, name, now, last, u);
      }
    }
  }

  lemma TotalsProper(h: seq<Record>, k: Correlativity, name: Name, now: real)
    requires k.Valid() && !NoneInforms(h, k, name, now)
    ensures ProperTotals(Totals(h, k, name, now))
  {
    TotalsAreSums(h, k, name, now);
    ContributionsPositive(h, k, name, now);
    SumsPositive(Contributions(h, k, name, now));
  }

  // ------------------------------------------------------------------------ theorems

  /** The timeout by correlativity is the clamped estimate if no record informs, and
      otherwise the clamped sum of the round-trip times, each weighted with the mean share
      its record has in the correlations. */
  lemma TimeoutIsWeightedTimes(c: Config, e: Estimator, k: Correlativity, name: Name, now: real)
    requires k.Valid()
    ensures RtoByCorrelativity(c, e, k, name, now) ==
            Clamp(c, if NoneInforms(e.history, k, name, now) then e.estimate
                     else WeightedTimes(e.history, k, name, now, Totals(e.history, k, name, now)))
  {
    PurgeLosesNothing(e.history, k, name, now);
    TotalsAreSums(e.history, k, name, now);
    if !NoneInforms(e.history, k, name, now) {
      TotalsProper(e.history, k, name, now);
      WeightedTimesAre(e.history, k, name, now, Totals(e.history, k, name, now));
    }
  }

  lemma {:induction false} ContributionSource(h: seq<Record>, k: Correlativity, name: Name, now: real, x: Contribution)
    requires x in Contributions(h, k, name, now)
    ensures exists r :: r in h && Informs(k, name, now, r) && x.rtt == r.rcvAt - r.sentAt
  {
    var init, last := h[..|h| - 1], h[|h| - 1];
    if x in Contributions(init, k, name, now) {
      ContributionSource(init, k, name, now, x);
      var r :| r in init && Informs(k, name, now, r) && x.rtt == r.rcvAt - r.sentAt;
      assert r in h;
    } else {
      assert last in h && x == ContributionOf(k, name, now, last);
    }
  }

  /** If the round-trip times of all records that inform lie between two bounds, the timeout
      lies between the clamped bounds; if none informs, it is the clamped estimate. */
  lemma TimeoutBetweenTimes(c: Config, e: Estimator, k: Correlativity, name: Name, now: real, lo: real, hi: real)
    requires c.Valid() && k.Valid()
    requires forall r :: r in e.history && Informs(k, name, now, r) ==> lo <= r.rcvAt - r.sentAt <= hi
    ensures var rto := RtoByCorrelativity(c, e, k, name, now);
            && c.minRto <= rto <= c.maxRto
            && if NoneInforms(e.history, k, name, now) then rto == Clamp(c, e.estimate)
               else Clamp(c, lo) <= rto <= Clamp(c, hi)
  {
    PurgeLosesNothing(e.history, k, name, now);
    TotalsAreSums(e.history, k, name, now);
    forall x | x in Contributions(e.history, k, name, now) ensures lo <= x.rtt <= hi {
      ContributionSource(e.history, k, name, now, x);
    }
    RtoByCorrelativityBounds(c, e, k, name, now, lo, hi);
  }

  /** If only one record informs, the timeout is its clamped round-trip time. */
  lemma TimeoutOfOne(c: Config, e: Estimator, k: Correlativity, name: Name, now: real, r: Record)
    requires c.Valid() && k.Valid() && r in e.history && Informs(k, name, now, r)
    requires forall x :: x in e.history && Informs(k, name, now, x) ==> x == r
    ensures RtoByCorrelativity(c, e, k, name, now) == Clamp(c, r.rcvAt - r.sentAt)
  {
    TimeoutBetweenTimes(c, e, k, name, now, r.rcvAt - r.sentAt, r.rcvAt - r.sentAt);
  }

  /** Of two records whose names are related alike, the one whose age counts for more
      weighs more. */
  lemma MoreRecentWeighsMore(h: seq<Record>, k: Correlativity, name: Name, now: real, r: Record, x: Record)
    requires k.Valid() && r in h && Informs(k, name, now, r)
    requires k.app(name, r.name) == k.app(name, x.name) && k.spatial(name, r.name) == k.spatial(name, x.name)
    ensures var u := Totals(h, k, name, now);
            k.temporal(now - r.rcvAt) > k.temporal(now - x.rcvAt) <==>
            MeanShare(k, name, now, r, u) > MeanShare(k, name, now, x, u)
  {
    var u := Totals(h, k, name, now);
    TotalsProper(h, k, name, now);
    LargerShare(k.temporal(now - r.rcvAt), k.temporal(now - x.rcvAt), u.t);
  }

  lemma LargerShare(x: real, y: real, total: real)
    requires total > 0.0
    ensures x > y <==> x / total > y / total
  {
  }
}
