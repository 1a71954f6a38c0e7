/** The RIB as a tree of name prefixes: parent search, inheritance along the ancestors,
    and the place of a new name. */
module RibTrees {
  import opened Options
  import opened RibEntries

  type RibTable = map<Name, RibEntry>

  // ------------------------------------------------------------------- parents

  /** The longest of the prefixes of `n` shorter than `k` that is in the table. */
  function LongestPrefix(rib: RibTable, n: Name, k: nat): (p: Option<Name>)
    requires k <= |n|
    ensures p.None? ==> forall q :: q in rib && q <= n ==> |q| >= k
    ensures p.Some? ==> p.value in rib && p.value <= n && |p.value| < k
    ensures p.Some? ==> forall q :: q in rib && q <= n && |q| < k ==> q <= p.value
  {
    if k == 0 then None
    else if n[..k - 1] in rib then
      assert forall q :: q in rib && q <= n && |q| < k ==> q <= n[..k - 1];
      Some(n[..k - 1])
    else
      var p := LongestPrefix(rib, n, k - 1);
      assert forall q :: q <= n && |q| == k - 1 ==> q == n[..k - 1];
      p
  }

  function Parent(rib: RibTable, n: Name): (p: Option<Name>)
    ensures p.None? ==> forall q :: q in rib ==> !(q < n)
    ensures p.Some? ==> p.value in rib && p.value < n
    ensures p.Some? ==> forall q :: q in rib && q < n ==> q <= p.value
  {
    LongestPrefix(rib, n, |n|)
  }

  method FindParent(rib: RibTable, n: Name) returns (p: Option<Name>)
    ensures p == Parent(rib, n)
  {
    var i := |n| - 1;
    while i >= 0
      invariant -1 <= i < |n|
      invariant Parent(rib, n) == LongestPrefix(rib, n, i + 1)
    {
      if n[..i] in rib {
        return Some(n[..i]);
      }
      i := i - 1;
    }
    return None;
  }

  /** `p` is what `Parent` returns when it is the longest proper prefix present. */
  lemma ParentUnique(rib: RibTable, n: Name, p: Name)
    requires p in rib && p < n
    requires forall q :: q in rib && q < n ==> q <= p
    ensures Parent(rib, n) == Some(p)
  {
    var r := Parent(rib, n);
    assert r.Some?;
    assert r.value <= p && p <= r.value;
    assert r.value == p;
  }

  lemma ParentNone(rib: RibTable, n: Name)
    requires forall q :: q in rib ==> !(q < n)
    ensures Parent(rib, n) == None
  {
  }

  // --------------------------------------------------------------- inheritance

  /** The ancestor a name inherits a face from: the nearest of its prefixes shorter
      than `k` with a child-inherit route on the face. The walk up ends after the
      first ancestor with capture. */
  function Source(rib: RibTable, n: Name, k: nat, f: FaceId): (s: Option<Name>)
    requires k <= |n|
    ensures s.Some? ==> s.value in rib && s.value < n && HasRouteOn(rib[s.value].routes, f, true)
    decreases k
  {
    if k == 0 then None
    else
      var p := n[..k - 1];
      if p in rib && HasRouteOn(rib[p].routes, f, true) then Some(p)
      else if p in rib && Captures(rib[p].routes) then None
      else Source(rib, n, k - 1, f)
  }

  /** The route `getAncestorRoutes` reports for a face: the one listed first at the source. */
  function FirstInherit(routes: seq<Route>, f: FaceId): (r: Route)
    requires HasRouteOn(routes, f, true)
    ensures r in routes && Matches(r, f, true)
  {
    if Matches(routes[0], f, true) then routes[0]
    else
      assert forall r :: r in routes <==> r == routes[0] || r in routes[1..];
      FirstInherit(routes[1..], f)
  }

  function AncestorRoute(rib: RibTable, n: Name, f: FaceId): (r: Option<Route>)
    ensures r.Some? ==> r.value.faceId == f
  {
    var s := Source(rib, n, |n|, f);
    if s.Some? then Some(FirstInherit(rib[s.value].routes, f)) else None
  }

  /** A set of routes as the daemon keeps it: at most one per face. */
  type RouteSet = map<FaceId, Route>

  function RouteOn(rs: RouteSet, f: FaceId): Option<Route> {
    if f in rs then Some(rs[f]) else None
  }

  ghost predicate IsAncestorRoutes(rib: RibTable, n: Name, rs: RouteSet) {
    forall f :: RouteOn(rs, f) == AncestorRoute(rib, n, f)
  }

  // ---------------------------------------------------------------------- links

  ghost predicate Distinct(ns: seq<Name>) {
    forall i, j :: 0 <= i < j < |ns| ==> ns[i] != ns[j]
  }

  /** `cs` lists the entries directly below `n`, which itself need not be an entry. */
  ghost predicate ChildrenOf(rib: RibTable, n: Name, cs: seq<Name>) {
    && Distinct(cs)
    && (forall c :: c in cs <==> c in rib && n < c && DirectlyBelow(rib, n, c))
  }

  ghost predicate DirectlyBelow(rib: RibTable, n: Name, c: Name) {
    forall p :: p in rib ==> !(n < p < c)
  }

  ghost predicate ParentsLinked(rib: RibTable) {
    forall n {:trigger rib[n].parent} :: n in rib ==> rib[n].parent == Parent(rib, n)
  }

  ghost predicate ChildrenLinked(rib: RibTable) {
    forall n {:trigger ChildrenOf(rib, n, rib[n].children)} :: n in rib ==> ChildrenOf(rib, n, rib[n].children)
  }

  ghost predicate Linked(rib: RibTable) {
    ParentsLinked(rib) && ChildrenLinked(rib)
  }

  /** The capture counter of every entry tells whether some route has capture. */
  ghost predicate CaptureExact(rib: RibTable) {
    forall n :: n in rib ==> (rib[n].HasCapture() <==> Captures(rib[n].routes))
  }

  /** Two prefixes of the same name are comparable. */
  lemma ProperPrefix(a: Name, b: Name)
    requires a <= b && a != b
    ensures a < b
  {
  }

  lemma PrefixesComparable(a: Name, b: Name, n: Name)
    requires a <= n && b <= n
    ensures if |a| <= |b| then a <= b else b < a
  {
  }

  // ------------------------------------------------------------ ancestor routes

  /** Adds the child-inherit routes of one ancestor; faces already present are kept. */
  method InsertInheritable(routes: seq<Route>, acc: RouteSet) returns (rs: RouteSet)
    ensures forall f :: f in rs <==> f in acc || HasRouteOn(routes, f, true)
    ensures forall f :: f in acc ==> f in rs && rs[f] == acc[f]
    ensures forall f :: f !in acc && HasRouteOn(routes, f, true) ==> f in rs && rs[f] == FirstInherit(routes, f)
  {
    rs := acc;
    for i := 0 to |routes|
      invariant forall f :: f in rs <==> f in acc || HasRouteOn(routes[..i], f, true)
      invariant forall f :: f in acc ==> f in rs && rs[f] == acc[f]
      invariant forall f :: f !in acc && HasRouteOn(routes[..i], f, true) ==>
          f in rs && rs[f] == FirstInherit(routes[..i], f)
    {
      var r := routes[i];
      ghost var before := rs;
      if r.childInherit && r.faceId !in rs {
        rs := rs[r.faceId := r];
      }
      forall f
        ensures HasRouteOn(routes[..i + 1], f, true) <==> HasRouteOn(routes[..i], f, true) || Matches(r, f, true)
        ensures HasRouteOn(routes[..i], f, true) ==> FirstInherit(routes[..i + 1], f) == FirstInherit(routes[..i], f)
        ensures !HasRouteOn(routes[..i], f, true) && Matches(r, f, true) ==> FirstInherit(routes[..i + 1], f) == r
      {
        assert routes[..i + 1] == routes[..i] + [r];
        FirstInheritAppend(routes[..i], r, f);
      }
    }
    assert routes[..|routes|] == routes;
  }

  lemma {:induction false} FirstInheritAppend(routes: seq<Route>, r: Route, f: FaceId)
    ensures HasRouteOn(routes + [r], f, true) <==> HasRouteOn(routes, f, true) || Matches(r, f, true)
    ensures HasRouteOn(routes, f, true) ==> FirstInherit(routes + [r], f) == FirstInherit(routes, f)
    ensures !HasRouteOn(routes, f, true) && Matches(r, f, true) ==> FirstInherit(routes + [r], f) == r
  {
    if routes == [] {
      assert routes + [r] == [r];
    } else {
      assert (routes + [r])[1..] == routes[1..] + [r];
      FirstInheritAppend(routes[1..], r, f);
      assert forall x :: x in routes <==> x == routes[0] || x in routes[1..];
      assert forall x :: x in routes + [r] <==> x in routes || x == r;
      assert (routes + [r])[0] == routes[0];
    }
  }

  /** `Rib::getAncestorRoutes`: walks the stored parent links from `start`, the
      parent of `n`. */
  method GetAncestorRoutes(rib: RibTable, n: Name, start: Option<Name>) returns (rs: RouteSet)
    requires ParentsLinked(rib) && CaptureExact(rib)
    requires start == Parent(rib, n)
    ensures IsAncestorRoutes(rib, n, rs)
  {
    rs := map[];
    var p := start;
    CollectStart(rib, n);
    while p != None
      invariant p.Some? ==> p.value in rib && p.value < n
      invariant AllCollected(rib, n, p, rs)
      decreases if p.Some? then |p.value| + 1 else 0
    {
      var q := p.value;
      var next := InsertInheritable(rib[q].routes, rs);
      CollectStep(rib, n, q, rs, next);
      rs, p := next, if rib[q].HasCapture() then None else rib[q].parent;
    }
    CollectEnd(rib, n, rs);
  }

  ghost predicate AllCollected(rib: RibTable, n: Name, p: Option<Name>, rs: RouteSet)
    requires p.Some? ==> p.value < n
  {
    forall f :: Collected(rib, n, p, rs, f)
  }

  lemma CollectStart(rib: RibTable, n: Name)
    ensures AllCollected(rib, n, Parent(rib, n), map[])
  {
    forall f ensures Collected(rib, n, Parent(rib, n), map[], f) {
      SourceFromParent(rib, n, |n|, f);
    }
  }

  lemma CollectStep(rib: RibTable, n: Name, q: Name, rs: RouteSet, next: RouteSet)
    requires q in rib && q < n
    requires rib[q].parent == Parent(rib, q)
    requires rib[q].HasCapture() <==> Captures(rib[q].routes)
    requires AllCollected(rib, n, Some(q), rs)
    requires forall f :: f in next <==> f in rs || HasRouteOn(rib[q].routes, f, true)
    requires forall f :: f in rs ==> f in next && next[f] == rs[f]
    requires forall f :: f !in rs && HasRouteOn(rib[q].routes, f, true) ==>
                           f in next && next[f] == FirstInherit(rib[q].routes, f)
    ensures AllCollected(rib, n, if rib[q].HasCapture() then None else rib[q].parent, next)
  {
    var p := if rib[q].HasCapture() then None else rib[q].parent;
    forall f ensures Collected(rib, n, p, next, f) {
      assert Collected(rib, n, Some(q), rs, f);
      CollectOne(rib, n, q, rs, next, f);
    }
  }

  lemma CollectEnd(rib: RibTable, n: Name, rs: RouteSet)
    requires AllCollected(rib, n, None, rs)
    ensures IsAncestorRoutes(rib, n, rs)
  {
    forall f ensures RouteOn(rs, f) == AncestorRoute(rib, n, f) {
      assert Collected(rib, n, None, rs, f);
    }
  }

  /** What the walk knows about one face when it has come up to `p`. */
  ghost predicate Collected(rib: RibTable, n: Name, p: Option<Name>, rs: RouteSet, f: FaceId)
    requires p.Some? ==> p.value < n
  {
    if f in rs then AncestorRoute(rib, n, f) == Some(rs[f])
    else Source(rib, n, |n|, f) == FromLink(rib, n, p, f)
  }

  lemma CollectOne(rib: RibTable, n: Name, q: Name, rs: RouteSet, next: RouteSet, f: FaceId)
    requires q in rib && q < n
    requires rib[q].parent == Parent(rib, q)
    requires rib[q].HasCapture() <==> Captures(rib[q].routes)
    requires Collected(rib, n, Some(q), rs, f)
    requires f in next <==> f in rs || HasRouteOn(rib[q].routes, f, true)
    requires f in rs ==> next[f] == rs[f]
    requires f !in rs && HasRouteOn(rib[q].routes, f, true) ==> next[f] == FirstInherit(rib[q].routes, f)
    ensures Collected(rib, n, if rib[q].HasCapture() then None else rib[q].parent, next, f)
  {
    if f !in rs {
      LinkUnfolds(rib, n, q, f);
    }
  }

  /** The walk at one ancestor: it ends there or goes on at the ancestor's parent. */
  lemma LinkUnfolds(rib: RibTable, n: Name, q: Name, f: FaceId)
    requires q in rib && q < n
    ensures FromLink(rib, n, Some(q), f) ==
            if HasRouteOn(rib[q].routes, f, true) then Some(q)
            else if Captures(rib[q].routes) then None
            else FromLink(rib, n, Parent(rib, q), f)
  {
    assert n[..|q|] == q;
    SourceFromParent(rib, q, |q|, f);
    SourcePrefix(rib, n, q, |q|, f);
    var p := Parent(rib, q);
    if p.Some? {
      SourcePrefix(rib, n, q, |p.value| + 1, f);
    }
  }

  /** The walk seen from the ancestor `p`, itself included. */
  ghost function FromLink(rib: RibTable, n: Name, p: Option<Name>, f: FaceId): Option<Name>
    requires p.Some? ==> p.value < n
  {
    if p.None? then None else Source(rib, n, |p.value| + 1, f)
  }

  /** Names absent from the table do not influence the walk. */
  lemma {:induction false} SourceFromParent(rib: RibTable, n: Name, k: nat, f: FaceId)
    requires k <= |n|
    ensures Source(rib, n, k, f) ==
            (var p := LongestPrefix(rib, n, k);
             if p.None? then None else Source(rib, n, |p.value| + 1, f))
    decreases k
  {
    if k > 0 && n[..k - 1] !in rib {
      SourceFromParent(rib, n, k - 1, f);
    }
  }

  /** The walk depends on the prefixes it visits only. */
  lemma {:induction false} SourcePrefix(rib: RibTable, m: Name, n: Name, k: nat, f: FaceId)
    requires k <= |m| && k <= |n| && m[..k] == n[..k]
    ensures Source(rib, m, k, f) == Source(rib, n, k, f)
    decreases k
  {
    if k > 0 {
      assert m[..k - 1] == m[..k][..k - 1] == n[..k - 1];
      SourcePrefix(rib, m, n, k - 1, f);
    }
  }

  // -------------------------------------------------------- place of a new name

  /** For a name that is not an entry, the entries directly below it are the entries
      under it that have the same parent. */
  lemma SameParentMeansDirectlyBelow(rib: RibTable, n: Name, d: Name)
    requires n !in rib && d in rib && n <= d
    ensures Parent(rib, d) == Parent(rib, n) <==> DirectlyBelow(rib, n, d)
  {
    if DirectlyBelow(rib, n, d) {
      forall q | q in rib && q < d ensures q < n {
        PrefixesComparable(n, q, d);
        if |n| <= |q| {
          ProperPrefix(n, q);
        }
        assert !(n < q < d);
      }
      if Parent(rib, n).Some? {
        ParentUnique(rib, d, Parent(rib, n).value);
      }
    } else {
      var p :| p in rib && n < p < d;
      assert Parent(rib, d).Some? && |p| <= |Parent(rib, d).value|;
    }
  }

  /** `findDescendantsForNonInsertedName`, in an arbitrary order. */
  method FindDescendantsForNonInsertedName(rib: RibTable, n: Name) returns (ds: seq<Name>)
    ensures Distinct(ds)
    ensures forall d :: d in ds <==> d in rib && n <= d
  {
    ds := [];
    var todo := rib.Keys;
    while todo != {}
      invariant todo <= rib.Keys
      invariant Distinct(ds)
      invariant forall d :: d in ds <==> d in rib && d !in todo && n <= d
      decreases |todo|
    {
      var d :| d in todo;
      if n <= d {
        ds := ds + [d];
      }
      todo := todo - {d};
    }
  }

  /** The entries that a new name takes over as its children. */
  method FindFutureChildren(rib: RibTable, n: Name, parent: Option<Name>) returns (cs: seq<Name>)
    requires n !in rib && ParentsLinked(rib) && parent == Parent(rib, n)
    ensures ChildrenOf(rib, n, cs)
  {
    var ds := FindDescendantsForNonInsertedName(rib, n);
    cs := FilterByParent(rib, ds, parent);
    forall c ensures c in cs <==> c in rib && n < c && DirectlyBelow(rib, n, c) {
      ChildTest(rib, n, c);
    }
  }

  method FilterByParent(rib: RibTable, ds: seq<Name>, parent: Option<Name>) returns (cs: seq<Name>)
    requires forall d :: d in ds ==> d in rib
    requires Distinct(ds)
    ensures Distinct(cs)
    ensures forall c :: c in cs <==> c in ds && rib[c].parent == parent
  {
    cs := [];
    for i := 0 to |ds|
      invariant Distinct(cs)
      invariant forall c :: c in cs <==> c in ds[..i] && rib[c].parent == parent
    {
      assert ds[..i + 1] == ds[..i] + [ds[i]];
      if rib[ds[i]].parent == parent {
        assert ds[i] !in cs;
        cs := cs + [ds[i]];
      }
    }
    assert ds[..|ds|] == ds;
  }

  lemma ChildTest(rib: RibTable, n: Name, c: Name)
    requires n !in rib && ParentsLinked(rib)
    ensures c in rib && n <= c && rib[c].parent == Parent(rib, n) <==>
            c in rib && n < c && DirectlyBelow(rib, n, c)
  {
    if c in rib && n <= c {
      ProperPrefix(n, c);
      SameParentMeansDirectlyBelow(rib, n, c);
    }
  }
}
