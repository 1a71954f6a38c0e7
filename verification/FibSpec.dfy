/** What the FIB should contain: a pure function of the RIB, and how that function
    reacts to a change of a single RIB entry. */
module FibSpec {
  import opened Options
  import opened RibEntries
  import opened RibTrees

  /** The cost a name inherits on a face from the entries strictly above it. */
  function InheritCost(rib: RibTable, n: Name, f: FaceId): Option<nat> {
    var s := Source(rib, n, |n|, f);
    if s.Some? then CheapestCost(rib[s.value].routes, f, true) else None
  }

  /** The next hop of `n` on face `f`: its cheapest own route, or else, without
      capture, the cheapest route of the ancestor it inherits the face from. */
  function NextHop(rib: RibTable, n: Name, f: FaceId): Option<nat> {
    if n !in rib then None
    else if HasRouteOn(rib[n].routes, f, false) then CheapestCost(rib[n].routes, f, false)
    else if Captures(rib[n].routes) then None
    else InheritCost(rib, n, f)
  }

  /** `n` has a next hop on `f` that is not its own. */
  predicate Inherits(rib: RibTable, n: Name, f: FaceId) {
    n in rib && !HasRouteOn(rib[n].routes, f, false) && !Captures(rib[n].routes) && InheritCost(rib, n, f).Some?
  }

  /** What an entry's subtree gets on `f` when nothing in between stops the face. */
  function BelowCost(rib: RibTable, n: Name, f: FaceId): Option<nat> {
    if n in rib && HasRouteOn(rib[n].routes, f, true) then CheapestCost(rib[n].routes, f, true)
    else if n in rib && Captures(rib[n].routes) then None
    else InheritCost(rib, n, f)
  }

  predicate Stops(e: RibEntry, f: FaceId) {
    HasRouteOn(e.routes, f, true) || Captures(e.routes)
  }

  /** No entry strictly between `n` and `d` stops the face. */
  ghost predicate BetweenClear(rib: RibTable, n: Name, d: Name, f: FaceId) {
    forall p :: p in rib && n < p && p < d ==> !Stops(rib[p], f)
  }

  /** The two tables have the same routes everywhere but at `n`. */
  ghost predicate SameElsewhere(a: RibTable, b: RibTable, n: Name) {
    forall m :: m != n ==> (m in a <==> m in b) && (m in a ==> a[m].routes == b[m].routes)
  }

  // ----------------------------------------------------------- locality lemmas

  lemma {:induction false} SourceSkipsClear(rib: RibTable, n: Name, d: Name, k: nat, f: FaceId)
    requires n < d && |n| < k <= |d|
    requires BetweenClear(rib, n, d, f)
    ensures Source(rib, d, k, f) == Source(rib, d, |n| + 1, f)
    decreases k
  {
    if k > |n| + 1 {
      var p := d[..k - 1];
      assert n < p && p < d;
      SourceSkipsClear(rib, n, d, k - 1, f);
    }
  }

  lemma ClearInherits(rib: RibTable, n: Name, d: Name, f: FaceId)
    requires n < d && BetweenClear(rib, n, d, f)
    ensures InheritCost(rib, d, f) == BelowCost(rib, n, f)
  {
    SourceSkipsClear(rib, n, d, |d|, f);
    assert d[..|n|] == n;
    SourcePrefix(rib, d, n, |n|, f);
  }

  /** A stopper strictly between `n` and `d` shields `d` from changes at `n`. */
  lemma {:induction false} SourceShielded(a: RibTable, b: RibTable, n: Name, d: Name, p: Name, k: nat, f: FaceId)
    requires SameElsewhere(a, b, n)
    requires p in a && n < p && p < d && Stops(a[p], f)
    requires |p| < k <= |d|
    ensures Source(a, d, k, f) == Source(b, d, k, f)
    ensures Source(a, d, k, f) != Some(n)
    decreases k
  {
    var q := d[..k - 1];
    assert |q| > |n|;
    if |p| == k - 1 {
      assert q == p;
    } else {
      SourceShielded(a, b, n, d, p, k - 1, f);
    }
  }

  lemma {:induction false} SourceUnrelated(a: RibTable, b: RibTable, n: Name, d: Name, k: nat, f: FaceId)
    requires SameElsewhere(a, b, n)
    requires !(n < d) && k <= |d|
    ensures Source(a, d, k, f) == Source(b, d, k, f)
    ensures Source(a, d, k, f) != Some(n)
    decreases k
  {
    if k > 0 {
      assert d[..k - 1] < d;
      SourceUnrelated(a, b, n, d, k - 1, f);
    }
  }

  /** A change at `n` reaches exactly the entries below it that no stopper shields. */
  lemma LocalChange(a: RibTable, b: RibTable, n: Name, d: Name, f: FaceId)
    requires SameElsewhere(a, b, n)
    ensures n < d && BetweenClear(a, n, d, f) ==>
              InheritCost(a, d, f) == BelowCost(a, n, f) && InheritCost(b, d, f) == BelowCost(b, n, f)
    ensures !(n < d && BetweenClear(a, n, d, f)) ==> InheritCost(a, d, f) == InheritCost(b, d, f)
    ensures InheritCost(a, n, f) == InheritCost(b, n, f)
  {
    SourceUnrelated(a, b, n, n, |n|, f);
    if n < d {
      if BetweenClear(a, n, d, f) {
        ClearInherits(a, n, d, f);
        ClearInherits(b, n, d, f);
      } else {
        var p :| p in a && n < p && p < d && Stops(a[p], f);
        SourceShielded(a, b, n, d, p, |d|, f);
      }
    } else {
      SourceUnrelated(a, b, n, d, |d|, f);
    }
  }

  /** The FIB depends on the routes of the entries only. */
  lemma {:induction false} SourceByRoutes(a: RibTable, b: RibTable, n: Name, k: nat, f: FaceId)
    requires a.Keys == b.Keys && (forall m :: m in a ==> a[m].routes == b[m].routes)
    requires k <= |n|
    ensures Source(a, n, k, f) == Source(b, n, k, f)
    decreases k
  {
    if k > 0 {
      SourceByRoutes(a, b, n, k - 1, f);
    }
  }

  lemma NextHopByRoutes(a: RibTable, b: RibTable, n: Name, f: FaceId)
    requires a.Keys == b.Keys && (forall m :: m in a ==> a[m].routes == b[m].routes)
    ensures NextHop(a, n, f) == NextHop(b, n, f)
    ensures Inherits(a, n, f) <==> Inherits(b, n, f)
  {
    SourceByRoutes(a, b, n, |n|, f);
  }
}
