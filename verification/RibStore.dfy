/** The class `Rib`: inserting and erasing routes, and the parent and child links
    that follow the name prefixes. */
module RibStore {
  import opened Options
  import opened RibEntries
  import opened RibTrees
  import opened FibDeltas
  import opened FibUpdaters
  import opened FibRecords

  /** Everything of an entry but its links. */
  predicate SamePayload(a: RibEntry, b: RibEntry) {
    a.routes == b.routes && a.inherited == b.inherited && a.nCapture == b.nCapture
  }

  ghost predicate SamePayloadBut(a: RibTable, b: RibTable, n: Name) {
    forall m :: m != n ==> (m in a <==> m in b) && (m in a ==> SamePayload(a[m], b[m]))
  }

  /** The child lists mirror the parent pointers. */
  ghost predicate Mirrored(t: RibTable) {
    forall m {:trigger ListsChildren(t, m)} :: m in t ==> ListsChildren(t, m)
  }

  ghost predicate ListsChildren(t: RibTable, m: Name)
    requires m in t
  {
    Distinct(t[m].children) && forall c :: c in t[m].children <==> c in t && t[c].parent == Some(m)
  }

  lemma ChildrenByParent(t: RibTable, m: Name, c: Name)
    requires m in t && c in t
    ensures m < c && DirectlyBelow(t, m, c) <==> Parent(t, c) == Some(m)
  {
    if Parent(t, c) == Some(m) {
      forall p | p in t ensures !(m < p < c) {
        if p < c {
          assert p <= m;
        }
      }
    } else if m < c && DirectlyBelow(t, m, c) {
      forall q | q in t && q < c ensures q <= m {
        PrefixesComparable(q, m, c);
        assert !(m < q < c);
      }
      ParentUnique(t, c, m);
    }
  }

  lemma LinkedMeansMirrored(t: RibTable)
    requires ParentsLinked(t)
    ensures ChildrenLinked(t) <==> Mirrored(t)
  {
    forall m | m in t ensures ChildrenOf(t, m, t[m].children) <==> ListsChildren(t, m) {
      forall c ensures c in t && m < c && DirectlyBelow(t, m, c) <==> c in t && t[c].parent == Some(m) {
        if c in t {
          ChildrenByParent(t, m, c);
        }
      }
    }
  }

  // -------------------------------------------------------------- link surgery

  function RemoveAll(cs: seq<Name>, c: Name): (r: seq<Name>)
    ensures forall x :: x in r <==> x in cs && x != c
    ensures Distinct(cs) ==> Distinct(r)
  {
    if cs == [] then []
    else
      var init, last := cs[..|cs| - 1], cs[|cs| - 1];
      assert forall x :: x in cs <==> x in init || x == last;
      assert Distinct(cs) ==> Distinct(init) && last !in init;
      if last == c then RemoveAll(init, c) else RemoveAll(init, c) + [last]
  }

  function AddChild(t: RibTable, p: Name, c: Name): RibTable
    requires p in t && c in t && p != c
  {
    t[c := t[c].(parent := Some(p))][p := t[p].(children := t[p].children + [c])]
  }

  function RemoveChild(t: RibTable, p: Name, c: Name): RibTable
    requires p in t && c in t && p != c
  {
    t[c := t[c].(parent := None)][p := t[p].(children := RemoveAll(t[p].children, c))]
  }

  lemma AddChildMirrored(t: RibTable, p: Name, c: Name)
    requires p in t && c in t && p != c && t[c].parent == None && Mirrored(t)
    ensures Mirrored(AddChild(t, p, c))
  {
    var t' := AddChild(t, p, c);
    forall m | m in t' ensures ListsChildren(t', m) {
      assert ListsChildren(t, m);
      assert forall x :: x in t[p].children + [c] <==> x in t[p].children || x == c;
    }
  }

  lemma RemoveChildMirrored(t: RibTable, p: Name, c: Name)
    requires p in t && c in t && p != c && t[c].parent == Some(p) && Mirrored(t)
    ensures Mirrored(RemoveChild(t, p, c))
  {
    var t' := RemoveChild(t, p, c);
    forall m | m in t' ensures ListsChildren(t', m) {
      assert ListsChildren(t, m);
    }
  }

  lemma FreshMirrored(t: RibTable, n: Name, e: RibEntry)
    requires n !in t && Mirrored(t) && e.parent == None && e.children == []
    requires forall m :: m in t ==> t[m].parent != Some(n)
    ensures Mirrored(t[n := e])
  {
    var t' := t[n := e];
    forall m | m in t' ensures ListsChildren(t', m) {
      if m != n {
        assert ListsChildren(t, m);
      }
    }
  }

  lemma DropMirrored(t: RibTable, n: Name)
    requires n in t && Mirrored(t) && t[n].parent == None
    ensures Mirrored(t - {n})
  {
    var t' := t - {n};
    forall m | m in t' ensures ListsChildren(t', m) {
      assert ListsChildren(t, m);
    }
  }

  lemma PayloadMirrored(t: RibTable, n: Name, e: RibEntry)
    requires n in t && Mirrored(t) && e.parent == t[n].parent && e.children == t[n].children
    ensures Mirrored(t[n := e])
  {
    var t' := t[n := e];
    forall m | m in t' ensures ListsChildren(t', m) {
      assert ListsChildren(t, m);
    }
  }

  // --------------------------------------------- parents when a name comes or goes

  lemma ParentByKeys(a: RibTable, b: RibTable, n: Name, k: nat)
    requires k <= |n| && forall q :: q < n ==> (q in a <==> q in b)
    ensures LongestPrefix(a, n, k) == LongestPrefix(b, n, k)
  {
  }

  lemma ParentWithName(a: RibTable, b: RibTable, n: Name, m: Name)
    requires n !in a && b.Keys == a.Keys + {n}
    ensures Parent(b, n) == Parent(a, n)
    ensures Parent(b, m) == if n < m && Parent(a, m) == Parent(a, n) then Some(n) else Parent(a, m)
  {
    ParentByKeys(a, b, n, |n|);
    if n < m {
      if Parent(a, m) == Parent(a, n) {
        forall q | q in b && q < m ensures q <= n {
          if q in a {
            var p := Parent(a, m);
            assert q <= p.value && p.value < n;
          }
        }
        ParentUnique(b, m, n);
      } else {
        var p := Parent(a, m);
        if p.None? {
          ParentNone(a, n);
          assert false;
        }
        PrefixesComparable(n, p.value, m);
        if p.value < n {
          forall q | q in a && q < n ensures q <= p.value {
            assert q < m;
          }
          ParentUnique(a, n, p.value);
          assert false;
        }
        ParentUnique(b, m, p.value);
      }
    } else {
      assert forall q :: q < m ==> (q in a <==> q in b);
      ParentByKeys(a, b, m, |m|);
    }
  }

  // ----------------------------------------------------------- inherited records

  function EraseFirstOn(routes: seq<Route>, f: FaceId): (r: seq<Route>)
    requires HasRouteOn(routes, f, false)
  {
    if routes[0].faceId == f then routes[1..]
    else
      assert forall x :: x in routes <==> x == routes[0] || x in routes[1..];
      [routes[0]] + EraseFirstOn(routes[1..], f)
  }

  lemma {:induction false} CountOnSplit(a: seq<Route>, b: seq<Route>, f: FaceId)
    ensures CountOn(a + b, f) == CountOn(a, f) + CountOn(b, f)
  {
    if b == [] {
      assert a + b == a;
    } else {
      assert (a + b)[..|a + b| - 1] == a + b[..|b| - 1];
      CountOnSplit(a, b[..|b| - 1], f);
    }
  }

  lemma {:induction false} EraseFirstCount(routes: seq<Route>, f: FaceId, g: FaceId)
    requires HasRouteOn(routes, f, false)
    ensures CountOn(EraseFirstOn(routes, f), g) == CountOn(routes, g) - (if g == f then 1 else 0)
  {
    var head, tail := [routes[0]], routes[1..];
    assert routes == head + tail;
    CountOnSplit(head, tail, g);
    assert CountOn(head, g) == CountOn([], g) + (if routes[0].faceId == g then 1 else 0) by {
      assert head[..0] == [];
    }
    if routes[0].faceId != f {
      assert forall x :: x in routes <==> x == routes[0] || x in tail;
      EraseFirstCount(tail, f, g);
      CountOnSplit(head, EraseFirstOn(tail, f), g);
    }
  }

  /** The record taken away is the first on its face; the others stay, in their order. */
  lemma {:induction false} EraseFirstAt(routes: seq<Route>, f: FaceId, i: nat)
    requires HasRouteOn(routes, f, false) && i < |routes| && routes[i].faceId == f
    requires forall j :: 0 <= j < i ==> routes[j].faceId != f
    ensures EraseFirstOn(routes, f) == routes[..i] + routes[i + 1..]
  {
    if i > 0 {
      var rest := routes[1..];
      RestHas(routes, f, i);
      EraseFirstAt(rest, f, i - 1);
      Prepended(routes, i);
    }
  }

  lemma RestHas(routes: seq<Route>, f: FaceId, i: nat)
    requires 0 < i < |routes| && routes[i].faceId == f
    ensures HasRouteOn(routes[1..], f, false)
  {
    assert routes[1..][i - 1] == routes[i] && Matches(routes[i], f, false);
  }

  lemma Prepended(routes: seq<Route>, i: nat)
    requires 0 < i < |routes|
    ensures [routes[0]] + (routes[1..][..i - 1] + routes[1..][i..]) == routes[..i] + routes[i + 1..]
  {
  }

  /** `modifyInheritedRoutes` for one record. */
  function ApplyRecord(e: RibEntry, u: RibUpdate): RibEntry
    requires u.action == Unregister ==> e.HasInherited(u.route.faceId)
  {
    match u.action
    case Register => e.(inherited := e.inherited + [u.route])
    case Unregister => e.(inherited := EraseFirstOn(e.inherited, u.route.faceId))
    case RemoveFace => e
  }

  /** The table after all records of the log, in the log's order. */
  function ApplyLog(t: RibTable, log: seq<RibUpdate>): RibTable {
    if log == [] then t else
      var before, u := ApplyLog(t, log[..|log| - 1]), log[|log| - 1];
      if u.name in before && (u.action == Unregister ==> before[u.name].HasInherited(u.route.faceId))
      then before[u.name := ApplyRecord(before[u.name], u)]
      else before
  }

  function RecordDelta(log: seq<RibUpdate>, n: Name, f: FaceId): int {
    CountRecords(log, Register, n, f) - CountRecords(log, Unregister, n, f)
  }

  class Rib {
    var table: RibTable

    constructor ()
      ensures table == map[] && Linked(table)
    {
      table := map[];
    }

    /** `Rib::insert` */
    method Insert(n: Name, r: Route)
      requires Linked(table)
      modifies this
      ensures Linked(table)
      ensures n in table && SamePayloadBut(old(table), table, n)
      ensures n in old(table) ==>
                SamePayload(table[n], if FindRoute(old(table)[n].routes, r) == |old(table)[n].routes|
                                      then InsertRoute(old(table)[n], r) else ReplaceRoute(old(table)[n], r))
      ensures n !in old(table) ==>
                SamePayload(table[n], NewEntry(r))
    {
      if n in table {
        var e := table[n];
        Store(n, if FindRoute(e.routes, r) == |e.routes| then InsertRoute(e, r) else ReplaceRoute(e, r));
      } else {
        LinkedMeansMirrored(table);
        InsertName(n, r);
      }
    }

    /** Replaces the payload of an entry. */
    method Store(n: Name, e: RibEntry)
      requires n in table && Linked(table)
      requires e.parent == table[n].parent && e.children == table[n].children
      modifies this
      ensures Linked(table) && table == old(table)[n := e]
    {
      LinkedMeansMirrored(table);
      PayloadMirrored(table, n, e);
      table := table[n := e];
      SameParents(old(table), table);
      LinkedMeansMirrored(table);
    }

    method InsertName(n: Name, r: Route)
      requires n !in table && ParentsLinked(table) && Mirrored(table)
      modifies this
      ensures Linked(table)
      ensures n in table && SamePayloadBut(old(table), table, n)
      ensures SamePayload(table[n], NewEntry(r))
    {
      NotYetParent(table, n);
      var parent := AttachName(n, r);
      var ds := FindDescendantsForNonInsertedName(table - {n}, n);
      AdoptDescendants(n, parent, ds);
      InsertedParents(old(table), table, n, ds);
      LinkedMeansMirrored(table);
    }

    /** Creates the entry and makes it a child of its parent. */
    method AttachName(n: Name, r: Route) returns (parent: Option<Name>)
      requires n !in table && Mirrored(table)
      requires forall m :: m in table ==> table[m].parent != Some(n)
      modifies this
      ensures table.Keys == old(table).Keys + {n} && Mirrored(table)
      ensures SamePayloadBut(old(table), table, n) && SamePayload(table[n], NewEntry(r))
      ensures parent == Parent(old(table), n) && table[n].parent == parent
      ensures forall m :: m in old(table) ==> table[m].parent == old(table)[m].parent
    {
      ghost var before := table;
      FreshMirrored(table, n, NewEntry(r));
      table := table[n := NewEntry(r)];
      parent := FindParent(table, n);
      ParentWithName(before, table, n, n);
      if parent.Some? {
        AddChildMirrored(table, parent.value, n);
        table := AddChild(table, parent.value, n);
      }
    }

    /** Takes a child from one parent, if any, and gives it to another, if any. */
    method MoveChild(from: Option<Name>, to: Option<Name>, c: Name)
      requires c in table && Mirrored(table) && table[c].parent == from
      requires from.Some? ==> from.value in table && from.value != c
      requires to.Some? ==> to.value in table && to.value != c
      modifies this
      ensures table.Keys == old(table).Keys && Mirrored(table)
      ensures forall m :: m in table ==> SamePayload(table[m], old(table)[m])
      ensures table[c].parent == to
      ensures forall m :: m in table && m != c ==> table[m].parent == old(table)[m].parent
    {
      if from.Some? {
        RemoveChildMirrored(table, from.value, c);
        table := RemoveChild(table, from.value, c);
      }
      if to.Some? {
        AddChildMirrored(table, to.value, c);
        table := AddChild(table, to.value, c);
      }
    }

    /** Moves the descendants that share the parent of `n` below `n`. */
    method AdoptDescendants(n: Name, parent: Option<Name>, ds: seq<Name>)
      requires n in table && Mirrored(table) && Distinct(ds) && n !in ds
      requires parent.Some? ==> parent.value in table && parent.value != n && parent.value !in ds
      requires forall d :: d in ds ==> d in table
      modifies this
      ensures table.Keys == old(table).Keys && Mirrored(table)
      ensures forall m :: m in table ==> SamePayload(table[m], old(table)[m])
      ensures forall m :: m in table ==>
                table[m].parent == if m in ds && old(table)[m].parent == parent then Some(n) else old(table)[m].parent
    {
      for i := 0 to |ds|
        invariant table.Keys == old(table).Keys && Mirrored(table)
        invariant forall m :: m in table ==> SamePayload(table[m], old(table)[m])
        invariant forall m :: m in table ==>
                    table[m].parent ==
                    if m in ds[..i] && old(table)[m].parent == parent then Some(n) else old(table)[m].parent
      {
        var c := ds[i];
        assert ds[..i + 1] == ds[..i] + [c];
        assert c !in ds[..i];
        if table[c].parent == parent {
          MoveChild(parent, Some(n), c);
        }
      }
      assert ds[..|ds|] == ds;
    }

    /** `Rib::erase` */
    method Erase(n: Name, r: Route)
      requires Linked(table)
      modifies this
      ensures Linked(table) && SamePayloadBut(old(table), table, n)
      ensures var found := n in old(table) && FindRoute(old(table)[n].routes, r) < |old(table)[n].routes|;
              && (!found ==> table == old(table))
              && (found && EraseRoute(old(table)[n], r).routes == [] ==> n !in table)
              && (found && EraseRoute(old(table)[n], r).routes != [] ==>
                    n in table && SamePayload(table[n], EraseRoute(old(table)[n], r)))
    {
      if n in table && FindRoute(table[n].routes, r) < |table[n].routes| {
        var e := EraseRoute(table[n], r);
        Store(n, e);
        if e.routes == [] {
          EraseEntry(n);
        }
      }
    }

    /** `Rib::eraseEntry`: the children move up to the parent. */
    method EraseEntry(n: Name)
      requires n in table && Linked(table)
      modifies this
      ensures Linked(table) && table.Keys == old(table).Keys - {n}
      ensures forall m :: m in table ==> SamePayload(table[m], old(table)[m])
    {
      LinkedMeansMirrored(table);
      assert ListsChildren(table, n);
      assert table[n].parent == Parent(table, n);
      DetachName(n);
      DropMirrored(table, n);
      table := table - {n};
      ErasedParents(old(table), table, n);
      LinkedMeansMirrored(table);
    }

    method DetachName(n: Name)
      requires n in table && Mirrored(table) && ListsChildren(table, n)
      requires table[n].parent.Some? ==>
                 table[n].parent.value in table && table[n].parent.value != n
                 && table[table[n].parent.value].parent != Some(n)
      requires n !in table[n].children
      modifies this
      ensures table.Keys == old(table).Keys && Mirrored(table)
      ensures forall m :: m in table ==> SamePayload(table[m], old(table)[m])
      ensures table[n].parent == None
      ensures forall m :: m in table && m != n ==>
                table[m].parent == if old(table)[m].parent == Some(n) then old(table)[n].parent
                    else old(table)[m].parent
    {
      var parent, cs := table[n].parent, table[n].children;
      MoveChild(parent, None, n);
      for i := 0 to |cs|
        invariant table.Keys == old(table).Keys && Mirrored(table)
        invariant forall m :: m in table ==> SamePayload(table[m], old(table)[m])
        invariant table[n].parent == None
        invariant forall m :: m in table && m != n ==>
                    table[m].parent == if m in cs[..i] then parent else old(table)[m].parent
      {
        var c := cs[i];
        assert cs[..i + 1] == cs[..i] + [c];
        assert c in cs && c !in cs[..i];
        MoveChild(Some(n), parent, c);
      }
      assert cs[..|cs|] == cs;
    }

    /** `modifyInheritedRoutes`; every record names an entry and every removal finds
        a record to remove. */
    method ModifyInheritedRoutes(log: seq<RibUpdate>)
      requires Linked(table)
      requires Covered(table, log)
      modifies this
      ensures table == ApplyLog(old(table), log)
      ensures Linked(table) && table.Keys == old(table).Keys
      ensures forall m :: m in table ==> table[m] == old(table)[m].(inherited := table[m].inherited)
      ensures forall n, f :: RecordCount(table, n, f) == RecordCount(old(table), n, f) + RecordDelta(log, n, f)
    {
      for i := 0 to |log|
        invariant table == ApplyLog(old(table), log[..i])
      {
        var u := log[i];
        assert log[..i + 1][..i] == log[..i];
        NextRecordFits(old(table), log, i);
        table := table[u.name := ApplyRecord(table[u.name], u)];
      }
      assert log[..|log|] == log;
      ApplyLogKeeps(old(table), log);
      forall n, f
        ensures RecordCount(table, n, f) == RecordCount(old(table), n, f) + RecordDelta(log, n, f)
      {
        ApplyLogCounts(old(table), log, n, f);
      }
    }
  }

  /** A log only touches the recorded inherited routes. */
  lemma {:induction false} ApplyLogKeeps(t: RibTable, log: seq<RibUpdate>)
    requires Linked(t)
    ensures Linked(ApplyLog(t, log)) && ApplyLog(t, log).Keys == t.Keys
    ensures forall m :: m in t ==> ApplyLog(t, log)[m] == t[m].(inherited := ApplyLog(t, log)[m].inherited)
  {
    if log != [] {
      var before, u := ApplyLog(t, log[..|log| - 1]), log[|log| - 1];
      ApplyLogKeeps(t, log[..|log| - 1]);
      if u.name in before && (u.action == Unregister ==> before[u.name].HasInherited(u.route.faceId)) {
        RecordKeepsLinks(before, u);
      }
    }
  }

  lemma RecordKeepsLinks(t: RibTable, u: RibUpdate)
    requires Linked(t) && u.name in t
    requires u.action == Unregister ==> t[u.name].HasInherited(u.route.faceId)
    ensures Linked(t[u.name := ApplyRecord(t[u.name], u)])
  {
    var e := ApplyRecord(t[u.name], u);
    LinkedMeansMirrored(t);
    PayloadMirrored(t, u.name, e);
    SameParents(t, t[u.name := e]);
    LinkedMeansMirrored(t[u.name := e]);
  }

  /** A log whose records name entries and whose removals each find a record at their
      turn, judged by the numbers of records the table holds at the start. */
  ghost predicate Covered(t: RibTable, log: seq<RibUpdate>) {
    (forall u :: u in log ==> u.name in t) && forall n, f :: Need(log, n, f) <= RecordCount(t, n, f)
  }

  lemma {:induction false} NeedPrefix(log: seq<RibUpdate>, i: nat, n: Name, f: FaceId)
    requires i <= |log|
    ensures Need(log[..i], n, f) <= Need(log, n, f)
    decreases |log|
  {
    if i == |log| {
      assert log[..i] == log;
    } else {
      var init := log[..|log| - 1];
      assert init[..i] == log[..i];
      NeedPrefix(init, i, n, f);
    }
  }

  lemma CoveredPrefix(t: RibTable, log: seq<RibUpdate>, i: nat)
    requires Covered(t, log) && i <= |log|
    ensures Covered(t, log[..i])
  {
    forall n, f ensures Need(log[..i], n, f) <= RecordCount(t, n, f) {
      NeedPrefix(log, i, n, f);
    }
  }

  /** A covered log counts: registrations add a record, removals take one. */
  lemma {:induction false} ApplyLogCounts(t: RibTable, log: seq<RibUpdate>, n: Name, f: FaceId)
    requires Linked(t) && Covered(t, log)
    ensures RecordCount(ApplyLog(t, log), n, f) == RecordCount(t, n, f) + RecordDelta(log, n, f)
    decreases |log|, 0
  {
    if log != [] {
      var i := |log| - 1;
      var u, before := log[i], ApplyLog(t, log[..i]);
      assert log[..|log|] == log;
      NextRecordFits(t, log, i);
      CoveredPrefix(t, log, i);
      ApplyLogCounts(t, log[..i], n, f);
      if n == u.name {
        ApplyRecordCount(before[n], u, f);
      }
    }
  }

  /** The `i`-th record finds its entry and, if it removes, a record to remove. */
  ghost predicate RecordFits(t: RibTable, log: seq<RibUpdate>, i: nat)
    requires i < |log|
  {
    var now := ApplyLog(t, log[..i]);
    log[i].name in now && (log[i].action == Unregister ==> now[log[i].name].HasInherited(log[i].route.faceId))
  }

  /** What the table holds for a pair after a covered log. */
  lemma HeldAfter(t: RibTable, log: seq<RibUpdate>, n: Name, f: FaceId)
    requires Linked(t) && Covered(t, log) && n in t
    ensures n in ApplyLog(t, log)
    ensures ApplyLog(t, log)[n].HasInherited(f) <==> RecordCount(t, n, f) + RecordDelta(log, n, f) > 0
    decreases |log|, 1
  {
    ApplyLogKeeps(t, log);
    ApplyLogCounts(t, log, n, f);
    CountOnPositive(ApplyLog(t, log)[n].inherited, f);
  }

  lemma NeedAppended(log: seq<RibUpdate>, u: RibUpdate)
    requires u.action == Unregister
    ensures var n, f := u.name, u.route.faceId;
            Need(log + [u], n, f) ==
            NeedNext(CountRecords(log, Register, n, f), CountRecords(log, Unregister, n, f), Need(log, n, f))
  {
    assert (log + [u])[..|log|] == log;
  }

  /** A removal finds a record after a covered log exactly if the pair needs no more
      records with it than the table holds. */
  lemma RoomForOne(t: RibTable, log: seq<RibUpdate>, u: RibUpdate)
    requires Linked(t) && Covered(t, log) && u.action == Unregister && u.name in t
    ensures u.name in ApplyLog(t, log)
    ensures Need(log + [u], u.name, u.route.faceId) <= RecordCount(t, u.name, u.route.faceId)
            <==> ApplyLog(t, log)[u.name].HasInherited(u.route.faceId)
    decreases |log|, 2
  {
    HeldAfter(t, log, u.name, u.route.faceId);
    NeedAppended(log, u);
    assert Need(log, u.name, u.route.faceId) <= RecordCount(t, u.name, u.route.faceId);
  }

  lemma NextRecordFits(t: RibTable, log: seq<RibUpdate>, i: nat)
    requires i < |log| && Linked(t) && Covered(t, log)
    ensures RecordFits(t, log, i)
    decreases i, 3
  {
    var u := log[i];
    assert u in log;
    CoveredPrefix(t, log, i);
    if u.action == Unregister {
      RoomForOne(t, log[..i], u);
      NeedUpTo(t, log, i);
    } else {
      ApplyLogKeeps(t, log[..i]);
    }
  }

  lemma NeedUpTo(t: RibTable, log: seq<RibUpdate>, i: nat)
    requires i < |log| && Covered(t, log)
    ensures Need(log[..i] + [log[i]], log[i].name, log[i].route.faceId) <=
            RecordCount(t, log[i].name, log[i].route.faceId)
  {
    assert log[..i + 1] == log[..i] + [log[i]];
    NeedPrefix(log, i + 1, log[i].name, log[i].route.faceId);
  }

  /** A log can be applied record by record, in its order, if and only if it is covered. */
  lemma {:induction false} FitsMeansCovered(t: RibTable, log: seq<RibUpdate>)
    requires Linked(t)
    ensures (forall i :: 0 <= i < |log| ==> RecordFits(t, log, i)) <==> Covered(t, log)
    decreases |log|
  {
    if Covered(t, log) {
      forall i | 0 <= i < |log| ensures RecordFits(t, log, i) {
        NextRecordFits(t, log, i);
      }
    } else if log != [] {
      var last := |log| - 1;
      var init := log[..last];
      if forall i :: 0 <= i < |log| ==> RecordFits(t, log, i) {
        forall i | 0 <= i < last ensures RecordFits(t, init, i) {
          assert init[..i] == log[..i];
          assert RecordFits(t, log, i);
        }
        FitsMeansCovered(t, init);
        LastFits(t, log);
        assert false;
      }
    }
  }

  lemma LastFits(t: RibTable, log: seq<RibUpdate>)
    requires Linked(t) && log != [] && Covered(t, log[..|log| - 1]) && RecordFits(t, log, |log| - 1)
    ensures Covered(t, log)
  {
    var init, u := log[..|log| - 1], log[|log| - 1];
    assert log == init + [u];
    ApplyLogKeeps(t, init);
    if u.action == Unregister {
      RoomForOne(t, init, u);
    }
    forall n, f ensures Need(log, n, f) <= RecordCount(t, n, f) {
      assert Need(init, n, f) <= RecordCount(t, n, f);
      if !(u.action == Unregister && u.name == n && u.route.faceId == f) {
        assert Need(log, n, f) == Need(init, n, f);
      }
    }
  }

  lemma ApplyRecordCount(e: RibEntry, u: RibUpdate, f: FaceId)
    requires u.action == Unregister ==> e.HasInherited(u.route.faceId)
    ensures CountOn(ApplyRecord(e, u).inherited, f) ==
            CountOn(e.inherited, f) + (if u.route.faceId != f then 0
                                       else if u.action == Register then 1
                                       else if u.action == Unregister then -1 else 0)
  {
    match u.action
    case Register =>
      assert (e.inherited + [u.route])[..|e.inherited|] == e.inherited;
    case Unregister =>
      EraseFirstCount(e.inherited, u.route.faceId, f);
    case RemoveFace =>
  }

  lemma ErasedParents(before: RibTable, t: RibTable, n: Name)
    requires n in before && ParentsLinked(before) && t.Keys == before.Keys - {n}
    requires forall m :: m in t ==>
               t[m].parent == if before[m].parent == Some(n) then before[n].parent else before[m].parent
    ensures ParentsLinked(t)
  {
    assert before[n].parent == Parent(before, n);
    forall m | m in t ensures t[m].parent == Parent(t, m) {
      assert before[m].parent == Parent(before, m);
      ParentWithName(t, before, n, m);
    }
  }

  function NewEntry(r: Route): RibEntry { RibEntry(None, [], [r], [], if r.capture then 1 else 0) }

  lemma NotYetParent(t: RibTable, n: Name)
    requires ParentsLinked(t) && n !in t
    ensures forall m :: m in t ==> t[m].parent != Some(n)
  {
  }

  lemma InsertedParents(before: RibTable, t: RibTable, n: Name, ds: seq<Name>)
    requires n !in before && ParentsLinked(before) && t.Keys == before.Keys + {n}
    requires t[n].parent == Parent(before, n)
    requires forall d :: d in ds <==> d in before && n <= d
    requires forall m :: m in before ==>
               t[m].parent == if m in ds && before[m].parent == Parent(before, n) then Some(n) else before[m].parent
    ensures ParentsLinked(t)
  {
    forall m | m in t ensures t[m].parent == Parent(t, m) {
      ParentWithName(before, t, n, m);
      if m != n {
        assert before[m].parent == Parent(before, m);
        if n <= m {
          ProperPrefix(n, m);
        }
      }
    }
  }

  /** Tables with the same names and parent pointers are linked alike. */
  lemma SameParents(a: RibTable, b: RibTable)
    requires a.Keys == b.Keys && ParentsLinked(a)
    requires forall m :: m in a ==> a[m].parent == b[m].parent
    ensures ParentsLinked(b)
  {
    forall m | m in b ensures b[m].parent == Parent(b, m) {
      assert a[m].parent == Parent(a, m);
      ParentByKeys(a, b, m, |m|);
    }
  }
}
