/** Concrete RIBs on which the computed updates differ from the recomputed FIB, or the
    records from what is inherited: one for each fault that the agreement theorems name,
    and for the records. All of them are in order before the update, but for the one that
    shows what a stale record does. The root hands down face 1 at cost 10. */
module FibExamples {
  import opened Options
  import opened RibEntries
  import opened RibTrees
  import opened FibSpec
  import opened FibDeltas
  import opened FibAgreement
  import opened FibRecords
  import opened FibReplaced
  import opened FibUpdaters
  import opened RibSystem

  const ROOT: Name := []
  const A: Name := ["a"]
  const AB: Name := ["a", "b"]
  const UP := Route(1, 0, 10, true, false)
  const LEAF := Route(3, 0, 0, false, false)

  // ----------------------------------------------------------- tables in order

  ghost predicate InOrder(rib: RibTable) {
    Linked(rib) && EntriesExact(rib) && RecordsExact(rib)
  }

  /** The root, "/a" with the given routes and records, and "/a/b" with a plain route
      on face 3. */
  function Tree(routes: seq<Route>, inherited: seq<Route>, below: seq<Route>): RibTable {
    map[ROOT := RibEntry(None, [A], [UP], [], 0),
        A := RibEntry(Some(ROOT), [AB], routes, inherited, CaptureCount(routes)),
        AB := RibEntry(Some(A), [], [LEAF], below, 0)]
  }

  /** The root and "/a" only. */
  function Pair(routes: seq<Route>, inherited: seq<Route>): RibTable {
    map[ROOT := RibEntry(None, [A], [UP], [], 0),
        A := RibEntry(Some(ROOT), [], routes, inherited, CaptureCount(routes))]
  }

  lemma Names()
    ensures ROOT < A && ROOT < AB && A < AB
    ensures A[..0] == ROOT && AB[..1] == A && AB[..0] == ROOT
  {
    assert A[..0] == ROOT && AB[..1] == A && AB[..0] == ROOT;
  }

  /** A name with the given parent, nothing of the table in between. */
  lemma ParentIs(rib: RibTable, n: Name, p: Name)
    requires p in rib && p < n && forall q :: q in rib ==> q == n || |q| <= |p| || |q| > |n|
    ensures Parent(rib, n) == Some(p)
  {
    forall q | q in rib && q < n ensures q <= p {
      PrefixesComparable(q, p, n);
    }
    ParentUnique(rib, n, p);
  }

  lemma OnlyChild(rib: RibTable, n: Name, c: Name)
    requires c in rib && n < c && forall q :: q in rib ==> q == c || |q| <= |n| || (c < q)
    ensures ChildrenOf(rib, n, [c])
  {
    assert DirectlyBelow(rib, n, c);
    forall x ensures x in [c] <==> x in rib && n < x && DirectlyBelow(rib, n, x) {
      if x in rib && n < x && x != c {
        assert n < c < x;
      }
    }
  }

  lemma NoChild(rib: RibTable, n: Name)
    requires forall q :: q in rib ==> |q| <= |n|
    ensures ChildrenOf(rib, n, [])
  {
  }

  lemma TreeLinked(rib: RibTable)
    requires rib.Keys == {ROOT, A, AB}
    requires rib[ROOT].parent == None && rib[A].parent == Some(ROOT) && rib[AB].parent == Some(A)
    requires rib[ROOT].children == [A] && rib[A].children == [AB] && rib[AB].children == []
    ensures Linked(rib)
  {
    Names();
    ParentNone(rib, ROOT);
    ParentIs(rib, A, ROOT);
    ParentIs(rib, AB, A);
    OnlyChild(rib, ROOT, A);
    OnlyChild(rib, A, AB);
    NoChild(rib, AB);
  }

  lemma PairLinked(rib: RibTable)
    requires rib.Keys == {ROOT, A} && rib[ROOT].parent == None && rib[A].parent == Some(ROOT)
    requires rib[ROOT].children == [A] && rib[A].children == []
    ensures Linked(rib)
  {
    Names();
    ParentNone(rib, ROOT);
    ParentIs(rib, A, ROOT);
    OnlyChild(rib, ROOT, A);
    NoChild(rib, A);
  }

  lemma TwoRoutes(x: Route, y: Route, f: FaceId, inheritOnly: bool)
    ensures HasRouteOn([x, y], f, inheritOnly) <==> Matches(x, f, inheritOnly) || Matches(y, f, inheritOnly)
    ensures Captures([x, y]) <==> x.capture || y.capture
    ensures CaptureCount([x, y]) == (if x.capture then 1 else 0) + (if y.capture then 1 else 0)
    ensures Cheapest([x, y], f, inheritOnly) ==
            if Matches(y, f, inheritOnly) && (!Matches(x, f, inheritOnly) || y.cost < x.cost) then Some(y)
            else if Matches(x, f, inheritOnly) then Some(x)
            else None
  {
    OnlyRoute(x, f, inheritOnly);
    assert [x, y][..1] == [x] && [x][..0] == [];
    assert CaptureCount([x]) == if x.capture then 1 else 0;
  }

  lemma OnlyRoute(r: Route, f: FaceId, inheritOnly: bool)
    ensures HasRouteOn([r], f, inheritOnly) <==> Matches(r, f, inheritOnly)
    ensures Captures([r]) <==> r.capture
    ensures CaptureCount([r]) == if r.capture then 1 else 0
    ensures Cheapest([r], f, inheritOnly) == if Matches(r, f, inheritOnly) then Some(r) else None
  {
    assert [r][..0] == [];
  }

  /** What "/a" inherits, and what the walk finds at "/a/b". */
  lemma UnderRoot(rib: RibTable, f: FaceId)
    requires ROOT in rib && rib[ROOT].routes == [UP]
    ensures AncestorRoute(rib, A, f) == if f == 1 then Some(UP) else None
    ensures InheritCost(rib, A, f) == if f == 1 then Some(10) else None
    ensures InheritCost(rib, ROOT, f) == None
  {
    OnlyRoute(UP, f, true);
    assert A[..0] == ROOT;
  }

  lemma UnderA(rib: RibTable, f: FaceId)
    requires rib.Keys == {ROOT, A, AB} && rib[AB].routes == [LEAF] && rib[AB].nCapture == 0
    ensures InheritCost(rib, AB, f) == BelowCost(rib, A, f)
    ensures f != 3 ==> PathClear(rib, A, AB, f) && !rib[AB].HasFaceId(f) && NextHop(rib, AB, f) == BelowCost(rib, A, f)
    ensures f == 3 ==> rib[AB].HasFaceId(f)
  {
    OnlyRoute(LEAF, f, false);
    OnlyRoute(LEAF, f, true);
    Names();
    ClearInherits(rib, A, AB, f);
  }

  /** A tree is in order if every entry records what it inherits. */
  lemma TreeInOrder(routes: seq<Route>, inherited: seq<Route>, below: seq<Route>)
    requires routes != [] && UniqueRoutes(routes)
    requires forall f :: HasRouteOn(inherited, f, false) <==>
        f == 1 && !HasRouteOn(routes, f, false) && !Captures(routes)
    requires forall f :: HasRouteOn(below, f, false) <==>
                         f != 3 && (HasRouteOn(routes, f, true) || (f == 1 && !Captures(routes)))
    ensures InOrder(Tree(routes, inherited, below))
  {
    var rib := Tree(routes, inherited, below);
    TreeLinked(rib);
    TreeEntries(rib, routes, inherited, below);
    TreeRecords(rib, routes, inherited, below);
  }

  lemma TreeRecords(rib: RibTable, routes: seq<Route>, inherited: seq<Route>, below: seq<Route>)
    requires rib == Tree(routes, inherited, below)
    requires forall f :: HasRouteOn(inherited, f, false) <==>
        f == 1 && !HasRouteOn(routes, f, false) && !Captures(routes)
    requires forall f :: HasRouteOn(below, f, false) <==>
                         f != 3 && (HasRouteOn(routes, f, true) || (f == 1 && !Captures(routes)))
    ensures RecordsExact(rib)
  {
    forall n, f | n in rib ensures rib[n].HasInherited(f) <==> Inherits(rib, n, f) {
      assert n == ROOT || n == A || n == AB;
      TreeRecord(rib, routes, inherited, below, f);
    }
  }

  lemma TreeEntries(rib: RibTable, routes: seq<Route>, inherited: seq<Route>, below: seq<Route>)
    requires rib == Tree(routes, inherited, below) && routes != [] && UniqueRoutes(routes)
    ensures EntriesExact(rib)
  {
    OnlyRoute(UP, 1, false);
    OnlyRoute(LEAF, 3, false);
  }

  lemma TreeRecord(rib: RibTable, routes: seq<Route>, inherited: seq<Route>, below: seq<Route>, f: FaceId)
    requires rib == Tree(routes, inherited, below)
    requires HasRouteOn(inherited, f, false) <==> f == 1 && !HasRouteOn(routes, f, false) && !Captures(routes)
    requires HasRouteOn(below, f, false) <==> f != 3 && (HasRouteOn(routes, f, true) || (f == 1 && !Captures(routes)))
    ensures rib[ROOT].HasInherited(f) <==> Inherits(rib, ROOT, f)
    ensures rib[A].HasInherited(f) <==> Inherits(rib, A, f)
    ensures rib[AB].HasInherited(f) <==> Inherits(rib, AB, f)
  {
    UnderRoot(rib, f);
    UnderA(rib, f);
    OnlyRoute(LEAF, f, false);
  }

  lemma PairInOrder(routes: seq<Route>, inherited: seq<Route>)
    requires routes != [] && UniqueRoutes(routes)
    requires forall f :: HasRouteOn(inherited, f, false) <==>
        f == 1 && !HasRouteOn(routes, f, false) && !Captures(routes)
    ensures InOrder(Pair(routes, inherited))
  {
    var rib := Pair(routes, inherited);
    PairLinked(rib);
    OnlyRoute(UP, 1, false);
    forall f
      ensures rib[ROOT].HasInherited(f) <==> Inherits(rib, ROOT, f)
      ensures rib[A].HasInherited(f) <==> Inherits(rib, A, f)
    {
      UnderRoot(rib, f);
    }
  }

  // ------------------------------------------------------------- registrations

  lemma RootInOrder(routes: seq<Route>)
    requires routes != [] && UniqueRoutes(routes) && !Captures(routes)
    ensures InOrder(map[ROOT := RibEntry(None, [], routes, [], 0)])
  {
    var rib := map[ROOT := RibEntry(None, [], routes, [], 0)];
    ParentNone(rib, ROOT);
    NoChild(rib, ROOT);
    CaptureCountPositive(routes);
    forall f ensures rib[ROOT].HasInherited(f) <==> Inherits(rib, ROOT, f) {
      assert Source(rib, ROOT, 0, f) == None;
    }
  }

  /** The ancestor lists a dearer route on the face first: that one is installed. */
  lemma FirstIsNotCheapest()
    ensures var cheap := Route(1, 1, 5, true, false);
            var r := Route(2, 0, 0, false, false);
            var rib := map[ROOT := RibEntry(None, [], [UP, cheap], [], 0)];
            var after := rib[A := RibEntry(Some(ROOT), [], [r], [], 0)];
            && InOrder(rib) && NewEntryInserted(rib, after, A, r)
            && NewEntryKey(rib, A, r, A, 1).op == Add(10)
            && NextHop(after, A, 1) == Some(5)
  {
    var cheap := Route(1, 1, 5, true, false);
    var r := Route(2, 0, 0, false, false);
    var rib := map[ROOT := RibEntry(None, [], [UP, cheap], [], 0)];
    var after := rib[A := RibEntry(Some(ROOT), [], [r], [], 0)];
    TwoRoutes(UP, cheap, 1, true);
    OnlyRoute(r, 1, false);
    assert A[..0] == ROOT;
    RootInOrder([UP, cheap]);
  }

  /** "/a" hands down face 1 itself; a capturing route on another face withdraws
      face 1 from "/a/b" all the same. */
  lemma OwnFaceWithdrawn()
    ensures var own, r := Route(1, 0, 20, true, false), Route(2, 0, 0, false, true);
            var rib, after := Tree([own], [], [own]), Tree([own, r], [], [own]);
            && InOrder(rib) && NewRouteInserted(rib, after, A, r)
            && NewRouteOp(rib, A, r, AB, 1) == Remove
            && NextHop(after, AB, 1) == Some(20)
  {
    var own, r := Route(1, 0, 20, true, false), Route(2, 0, 0, false, true);
    OneRouteHandsDown(own);
    WithdrawnOp(Tree([own], [], [own]), own, r);
    StillHandedDown(Tree([own, r], [], [own]), own, r);
    SecondInserted(own, r, [own]);
  }

  lemma SecondInserted(x: Route, y: Route, below: seq<Route>)
    ensures NewRouteInserted(Tree([x], [], below), Tree([x, y], [], below), A, y)
  {
    assert [x] + [y] == [x, y];
  }

  lemma StillHandedDown(rib: RibTable, own: Route, r: Route)
    requires rib == Tree([own, r], [], [own]) && own.faceId == 1 && own.childInherit && r.faceId != 1
    ensures NextHop(rib, AB, 1) == Some(own.cost)
  {
    UnderA(rib, 1);
    TwoRoutes(own, r, 1, true);
  }

  lemma WithdrawnOp(rib: RibTable, own: Route, r: Route)
    requires rib == Tree([own], [], [own]) && own.faceId == 1 && own.childInherit && !own.capture
    requires r.faceId != 1 && r.capture
    ensures NewRouteOp(rib, A, r, AB, 1) == Remove
  {
    UnderRoot(rib, 1);
    UnderA(rib, 1);
    OnlyRoute(own, 1, false);
    OnlyRoute(own, 1, true);
  }

  lemma OneRouteHandsDown(own: Route)
    requires own.faceId == 1 && own.childInherit && !own.capture
    ensures InOrder(Tree([own], [], [own]))
  {
    forall f
      ensures HasRouteOn([own], f, false) <==> f == 1
      ensures HasRouteOn([own], f, true) <==> f == 1
      ensures Captures([own]) == false
    {
      OnlyRoute(own, f, false);
      OnlyRoute(own, f, true);
    }
    TreeInOrder([own], [], [own]);
  }

  /** "/a/b" inherits face 1 from the root. The new name "/a" hands down the same face,
      so "/a/b" records it a second time. */
  lemma RecordedTwice()
    ensures var own := Route(1, 0, 20, true, false);
            var rib := map[ROOT := RibEntry(None, [AB], [UP], [], 0), AB := RibEntry(Some(ROOT), [], [LEAF], [UP], 0)];
            var after := Tree([own], [], [UP, own]);
            && InOrder(rib) && NewEntryInserted(rib, after, A, own)
            && NewEntryKey(rib, A, own, AB, 1) == AddInherited(NOTHING, 20)
            && after[AB].inherited == rib[AB].inherited + [own]
  {
    var own := Route(1, 0, 20, true, false);
    var rib := map[ROOT := RibEntry(None, [AB], [UP], [], 0), AB := RibEntry(Some(ROOT), [], [LEAF], [UP], 0)];
    LongLinkInOrder(rib);
    Names();
    OnlyRoute(LEAF, 1, false);
    OnlyRoute(LEAF, 1, true);
    assert PathClear(rib, A, AB, 1);
  }

  lemma LongLinkInOrder(rib: RibTable)
    requires rib == map[ROOT := RibEntry(None, [AB], [UP], [], 0), AB := RibEntry(Some(ROOT), [], [LEAF], [UP], 0)]
    ensures InOrder(rib)
  {
    Names();
    ParentNone(rib, ROOT);
    ParentIs(rib, AB, ROOT);
    OnlyChild(rib, ROOT, AB);
    NoChild(rib, AB);
    OnlyRoute(UP, 1, false);
    OnlyRoute(LEAF, 3, false);
    forall f
      ensures rib[ROOT].HasInherited(f) <==> Inherits(rib, ROOT, f)
      ensures rib[AB].HasInherited(f) <==> Inherits(rib, AB, f)
    {
      LongLinkRecord(rib, f);
    }
  }

  lemma LongLinkRecord(rib: RibTable, f: FaceId)
    requires rib.Keys == {ROOT, AB} && rib[ROOT].routes == [UP] && rib[AB].routes == [LEAF]
    ensures Inherits(rib, AB, f) <==> f == 1
    ensures HasRouteOn([UP], f, false) <==> f == 1
    ensures !Inherits(rib, ROOT, f)
  {
    OnlyRoute(UP, f, true);
    OnlyRoute(UP, f, false);
    OnlyRoute(LEAF, f, false);
    assert AB[..1] == A && AB[..0] == ROOT && A[..0] == ROOT;
    assert Source(rib, AB, 2, f) == Source(rib, AB, 1, f);
  }

  /** When "/a/b" then captures, only one of the two records goes, although it
      inherits nothing any more. */
  lemma SecondRecordStays()
    ensures var own := Route(1, 0, 20, true, false);
            var cap := Route(2, 0, 0, false, true);
            var rib := Tree([own], [], [UP, own]);
            var after := rib[AB := InsertRoute(rib[AB], cap)];
            && InOrder(rib) && NewRouteInserted(rib, after, AB, cap)
            && RouteDoubled(rib, AB, cap, AB, 1)
            && !RecordsRight(rib, after, NewRouteState(rib, AB, cap, AB, 1), AB, 1)
  {
    var own := Route(1, 0, 20, true, false);
    var cap := Route(2, 0, 0, false, true);
    var rib := Tree([own], [], [UP, own]);
    var after := rib[AB := InsertRoute(rib[AB], cap)];
    TwiceInOrder(own);
    CountTwo(UP, own);
    SecondRecordState(rib, own, cap);
    EntriesCapture(rib);
    NewRouteRecords(rib, after, AB, cap, AB, 1);
  }

  lemma SecondRecordState(rib: RibTable, own: Route, cap: Route)
    requires rib == Tree([own], [], [UP, own]) && own.faceId == 1 && own.childInherit && !own.capture && cap.capture
    ensures NewRouteState(rib, AB, cap, AB, 1).unregs == 1 && NewRouteState(rib, AB, cap, AB, 1).regs == 0
  {
    UnderA(rib, 1);
    OnlyRoute(own, 1, true);
    AncestorRouteMeansInherit(rib, AB, 1);
    TwoRoutes(UP, own, 1, false);
  }

  lemma TwiceInOrder(own: Route)
    requires own.faceId == 1 && own.childInherit && !own.capture
    ensures InOrder(Tree([own], [], [UP, own]))
  {
    forall f
      ensures HasRouteOn([own], f, false) <==> f == 1
      ensures HasRouteOn([own], f, true) <==> f == 1
      ensures Captures([own]) == false
      ensures HasRouteOn([UP, own], f, false) <==> f == 1
    {
      OnlyRoute(own, f, false);
      OnlyRoute(own, f, true);
      TwoRoutes(UP, own, f, false);
    }
    TreeInOrder([own], [], [UP, own]);
  }

  lemma CountTwo(x: Route, y: Route)
    requires x.faceId == y.faceId
    ensures CountOn([x, y], x.faceId) == 2
  {
    assert [x, y][..1] == [x] && [x][..0] == [];
    assert CountOn([x], x.faceId) == 1;
  }

  const OWN := Route(1, 0, 20, false, false)
  const PLAIN := Route(2, 0, 0, false, false)

  /** "/a", which inherits face 1, gets a route of its own there, and its record stays. */
  lemma OwnRouteLeavesRecord()
    ensures var rib := Pair([PLAIN], [UP]);
            var after := Pair([PLAIN, OWN], [UP]);
            && InOrder(rib) && NewRouteInserted(rib, after, A, OWN)
            && NewRouteState(rib, A, OWN, A, 1) == NOTHING.(op := Add(20))
            && !Inherits(after, A, 1)
  {
    var rib := Pair([PLAIN], [UP]);
    PlainPairInOrder(PLAIN);
    OnlyRoute(PLAIN, 1, false);
    TwoRoutes(PLAIN, OWN, 1, false);
    assert [PLAIN] + [OWN] == [PLAIN, OWN];
  }

  /** What the stale record does: when the root's route goes, the next hop of "/a" on
      face 1 is removed although its route remains. */
  lemma StaleRecordRemovesOwnNextHop()
    ensures var rib := Pair([PLAIN, OWN], [UP]);
            var after := map[A := rib[A].(parent := None)];
            && ErasedInOrder(rib, after, ROOT, UP, None)
            && UnregisterOp(rib, ROOT, UP, None, A, 1) == Remove
            && NextHop(after, A, 1) == Some(20)
  {
    var rib := Pair([PLAIN, OWN], [UP]);
    OnlyRoute(UP, 1, false);
    TwoRoutes(PLAIN, OWN, 1, false);
    TwoRoutes(PLAIN, OWN, 1, true);
    assert UP in [UP] && EraseRoute(rib[ROOT], UP).routes == [];
    forall p | p in rib && ROOT < p && p <= A ensures !StopsWalk(rib[p], 1) {
      assert p == A;
    }
    UnregisterBelowState(rib, ROOT, EraseRoute(rib[ROOT], UP), UP, None, A, 1);
    assert Source(rib, ROOT, 0, 1) == None;
  }

  lemma PlainPairInOrder(plain: Route)
    requires plain.faceId != 1 && !plain.capture
    ensures InOrder(Pair([plain], [UP]))
  {
    forall f
      ensures HasRouteOn([UP], f, false) <==> f == 1
      ensures HasRouteOn([plain], f, false) <==> f == plain.faceId
      ensures !Captures([plain])
    {
      OnlyRoute(UP, f, false);
      OnlyRoute(plain, f, false);
    }
    PairInOrder([plain], [UP]);
  }

  // ----------------------------------------------------------- unregistrations

  /** The last route of "/a" captures; erasing it leaves face 1 on the erased name. */
  lemma AncestorFaceLeftBehind()
    ensures var x := Route(2, 0, 0, false, true);
            var rib := Pair([x], []);
            var after := map[ROOT := RibEntry(None, [], [UP], [], 0)];
            && InOrder(rib) && ErasedInOrder(rib, after, A, x, None)
            && UnregisterOp(rib, A, x, None, A, 1) == Add(10)
            && NextHop(after, A, 1) == None
  {
    var x := Route(2, 0, 0, false, true);
    var rib := Pair([x], []);
    forall f ensures !HasRouteOn([], f, false) && Captures([x]) {
      OnlyRoute(x, f, false);
    }
    PairInOrder([x], []);
    UnderRoot(rib, 1);
    OnlyRoute(x, 1, false);
    assert x in [x];
    assert EraseRoute(rib[A], x) == RibEntry(Some(ROOT), [], [], [], 0);
  }

  lemma EraseSecond(e: RibEntry, x: Route, y: Route)
    requires e.routes == [x, y] && !SameKey(x, y) && !y.capture
    ensures EraseRoute(e, y) == e.(routes := [x])
  {
    assert FindRoute([x, y][1..], y) == 0;
    assert FindRoute([x, y], y) == 1;
    assert [x, y][..1] + [x, y][2..] == [x];
  }

  /** The tree after the second of two routes of "/a" has been erased. */
  function Erased(x: Route, y: Route, inherited: seq<Route>, below: seq<Route>): RibTable {
    var rib := Tree([x, y], inherited, below);
    rib[A := EraseRoute(rib[A], y)]
  }

  lemma ErasesInOrder(x: Route, y: Route, inherited: seq<Route>, below: seq<Route>, next: Option<Route>)
    requires !SameKey(x, y) && !x.capture && !y.capture
    requires IsSecond([x, y], y.faceId, next)
    ensures ErasedInOrder(Tree([x, y], inherited, below), Erased(x, y, inherited, below), A, y, next)
  {
    EraseSecond(Tree([x, y], inherited, below)[A], x, y);
    assert y in [x, y];
  }

  /** What "/a/b" is given on a face and what it should have. */
  lemma ErasedBelow(x: Route, y: Route, inherited: seq<Route>, below: seq<Route>, next: Option<Route>, f: FaceId)
    requires !SameKey(x, y) && !x.capture && !y.capture && f != 3 && (next == None || next == Some(y))
    ensures UnregisterOp(Tree([x, y], inherited, below), A, y, next, AB, f) ==
            if next == Some(y) && f == y.faceId && y.childInherit && (Matches(x, f, true) ==> y.cost <= x.cost)
                then Add(y.cost)
            else if y.childInherit && f == 1 then Add(10)
            else if y.childInherit && f == y.faceId && HasRouteOn(below, f, false) then Remove
            else Keep
    ensures NextHop(Erased(x, y, inherited, below), AB, f) ==
            if Matches(x, f, true) then Some(x.cost) else if f == 1 then Some(10) else None
  {
    var rib := Tree([x, y], inherited, below);
    var rest := EraseRoute(rib[A], y);
    EraseSecond(rib[A], x, y);
    UnderRoot(rib, f);
    UnderA(rib, f);
    UnregisterBelowState(rib, A, rest, y, next, AB, f);
    OnlyRoute(x, y.faceId, true);
    TwoRoutes(x, y, f, true);
    ErasedBelowHop(x, y, inherited, below, f);
  }

  lemma ErasedBelowHop(x: Route, y: Route, inherited: seq<Route>, below: seq<Route>, f: FaceId)
    requires !SameKey(x, y) && !x.capture && !y.capture && f != 3
    ensures NextHop(Erased(x, y, inherited, below), AB, f) ==
            if Matches(x, f, true) then Some(x.cost) else if f == 1 then Some(10) else None
  {
    var after := Erased(x, y, inherited, below);
    EraseSecond(Tree([x, y], inherited, below)[A], x, y);
    UnderRoot(after, f);
    UnderA(after, f);
    OnlyRoute(x, f, true);
  }

  /** What "/a" is given on the face that its two routes share, and what it should have. */
  lemma ErasedSelf(x: Route, y: Route, inherited: seq<Route>, below: seq<Route>)
    requires !SameKey(x, y) && !x.capture && !y.capture && x.faceId == y.faceId && x.cost < y.cost
    ensures UnregisterOp(Tree([x, y], inherited, below), A, y, Some(y), A, y.faceId) == if y.faceId == 1 then Add(10)
        else Remove
    ensures NextHop(Erased(x, y, inherited, below), A, y.faceId) == Some(x.cost)
  {
    var rib := Tree([x, y], inherited, below);
    var rest := EraseRoute(rib[A], y);
    EraseSecond(rib[A], x, y);
    UnderRoot(rib, y.faceId);
    OnlyRoute(x, y.faceId, false);
    TwoRoutes(x, y, y.faceId, false);
    UnregisterSharedOp(rib, A, rest, y, Some(y));
  }

  /** Two routes on a face of "/a": which of them is the second cheapest. */
  lemma SecondOfTwo(x: Route, y: Route)
    requires x.faceId == y.faceId && x.cost <= y.cost
    ensures IsSecond([x, y], x.faceId, Some(y))
  {
    assert SecondCheapestAt([x, y], x.faceId, 0, 1);
  }

  /** "/a" hands down face 1 itself at cost 20; erasing its other child-inherit route
      gives "/a/b" the root's route on face 1 instead. */
  lemma OwnFaceOverridden()
    ensures var own := Route(1, 0, 20, true, false);
            var x := Route(2, 0, 0, true, false);
            var rib := Tree([own, x], [], [own, x]);
            var after := Erased(own, x, [], [own, x]);
            && InOrder(rib) && ErasedInOrder(rib, after, A, x, None)
            && UnregisterOp(rib, A, x, None, AB, 1) == Add(10)
            && NextHop(after, AB, 1) == Some(20)
  {
    var own := Route(1, 0, 20, true, false);
    var x := Route(2, 0, 0, true, false);
    assert own in [own, x] && x in [own, x];
    TwoRoutesInOrder(own, x, [], [own, x]);
    ErasesInOrder(own, x, [], [own, x], None);
    ErasedBelow(own, x, [], [own, x], None, 1);
  }

  lemma TwoRoutesInOrder(x: Route, y: Route, inherited: seq<Route>, below: seq<Route>)
    requires !SameKey(x, y) && !x.capture && !y.capture && |inherited| <= 1
    requires forall r :: r in inherited ==> r.faceId == 1
    requires inherited == [] <==> x.faceId == 1 || y.faceId == 1
    requires forall r :: r in below ==>
               r.faceId != 3 &&
                   (r.faceId == 1 || (r.faceId == x.faceId && x.childInherit) ||
                       (r.faceId == y.faceId && y.childInherit))
    requires exists r :: r in below && r.faceId == 1
    requires x.childInherit && x.faceId != 3 ==> exists r :: r in below && r.faceId == x.faceId
    requires y.childInherit && y.faceId != 3 ==> exists r :: r in below && r.faceId == y.faceId
    ensures InOrder(Tree([x, y], inherited, below))
  {
    forall f
      ensures HasRouteOn([x, y], f, false) <==> f == x.faceId || f == y.faceId
      ensures HasRouteOn([x, y], f, true) <==> (f == x.faceId && x.childInherit) || (f == y.faceId && y.childInherit)
      ensures !Captures([x, y])
      ensures HasRouteOn(inherited, f, false) <==> exists r :: r in inherited && r.faceId == f
      ensures HasRouteOn(below, f, false) <==> exists r :: r in below && r.faceId == f
    {
      TwoRoutes(x, y, f, false);
      TwoRoutes(x, y, f, true);
      ByFace(inherited, f);
      ByFace(below, f);
    }
    if inherited != [] {
      assert inherited[0] in inherited;
    }
    TreeInOrder([x, y], inherited, below);
  }

  lemma ByFace(routes: seq<Route>, f: FaceId)
    ensures HasRouteOn(routes, f, false) <==> exists r :: r in routes && r.faceId == f
  {
    if r :| r in routes && r.faceId == f {
      assert Matches(r, f, false);
    }
  }

  /** "/a" has a cheap route and a dear one on face 2, and hands the dear one down.
      Erasing the dear one removes the face from "/a", whose cheap route stays, and
      hands the erased route to "/a/b" once more, which should lose it. */
  lemma DearerTakesCheaperAlong()
    ensures var cheap, dear := Route(2, 0, 5, false, false), Route(2, 1, 20, true, false);
            var rib := Tree([cheap, dear], [UP], [UP, dear]);
            var after := Erased(cheap, dear, [UP], [UP, dear]);
            && InOrder(rib) && ErasedInOrder(rib, after, A, dear, Some(dear))
            && UnregisterOp(rib, A, dear, Some(dear), A, 2) == Remove && NextHop(after, A, 2) == Some(5)
            && UnregisterOp(rib, A, dear, Some(dear), AB, 2) == Add(20) && NextHop(after, AB, 2) == None
            && Orphaned(rib, A, dear, Some(dear), AB, 2)
  {
    var cheap, dear := Route(2, 0, 5, false, false), Route(2, 1, 20, true, false);
    assert UP in [UP, dear] && dear in [UP, dear];
    TwoRoutesInOrder(cheap, dear, [UP], [UP, dear]);
    SecondOfTwo(cheap, dear);
    ErasesInOrder(cheap, dear, [UP], [UP, dear], Some(dear));
    ErasedSelf(cheap, dear, [UP], [UP, dear]);
    ErasedBelow(cheap, dear, [UP], [UP, dear], Some(dear), 2);
    DearerOrphaned(Tree([cheap, dear], [UP], [UP, dear]), cheap, dear);
  }

  lemma DearerOrphaned(rib: RibTable, cheap: Route, dear: Route)
    requires rib == Tree([cheap, dear], [UP], [UP, dear])
    requires cheap == Route(2, 0, 5, false, false) && dear == Route(2, 1, 20, true, false)
    ensures Orphaned(rib, A, dear, Some(dear), AB, 2)
  {
    EraseSecond(rib[A], cheap, dear);
    UnderRoot(rib, 2);
    UnderA(rib, 2);
    OnlyRoute(cheap, 2, true);
  }

  /** "/a" hands down two routes on face 2; erasing the dearer one drops the face from
      "/a/b" although the cheaper one is still handed down. */
  lemma HandedDownFaceDropped()
    ensures var cheap, dear := Route(2, 0, 5, true, false), Route(2, 1, 20, true, false);
            var rib := Tree([cheap, dear], [UP], [UP, cheap]);
            var after := Erased(cheap, dear, [UP], [UP, cheap]);
            && InOrder(rib) && ErasedInOrder(rib, after, A, dear, Some(dear))
            && UnregisterOp(rib, A, dear, Some(dear), AB, 2) == Remove && NextHop(after, AB, 2) == Some(5)
  {
    var cheap, dear := Route(2, 0, 5, true, false), Route(2, 1, 20, true, false);
    assert UP in [UP, cheap] && cheap in [UP, cheap];
    TwoRoutesInOrder(cheap, dear, [UP], [UP, cheap]);
    SecondOfTwo(cheap, dear);
    ErasesInOrder(cheap, dear, [UP], [UP, cheap], Some(dear));
    TwoRoutes(UP, cheap, 2, false);
    ErasedBelow(cheap, dear, [UP], [UP, cheap], Some(dear), 2);
  }

  /** Two own routes on the face that the root hands down: erasing the dearer one gives
      "/a" the root's cost in place of its own, and a record of a route it does not inherit. */
  lemma RecordBesideOwnRoute()
    ensures var cheap, dear := Route(1, 1, 5, false, false), Route(1, 2, 20, false, false);
            var rib := Tree([cheap, dear], [], [UP]);
            var after := Erased(cheap, dear, [], [UP]);
            && InOrder(rib) && ErasedInOrder(rib, after, A, dear, Some(dear))
            && UnregisterOp(rib, A, dear, Some(dear), A, 1) == Add(10) && Superfluous(rib, A, dear, Some(dear), A, 1)
            && NextHop(after, A, 1) == Some(5) && !Inherits(after, A, 1)
  {
    var cheap, dear := Route(1, 1, 5, false, false), Route(1, 2, 20, false, false);
    var rib := Tree([cheap, dear], [], [UP]);
    assert UP in [UP];
    TwoRoutesInOrder(cheap, dear, [], [UP]);
    SecondOfTwo(cheap, dear);
    ErasesInOrder(cheap, dear, [], [UP], Some(dear));
    ErasedSelf(cheap, dear, [], [UP]);
    EraseSecond(rib[A], cheap, dear);
    UnderRoot(rib, 1);
    OnlyRoute(cheap, 1, false);
  }

  const CHEAP := Route(1, 1, 5, true, false)

  /** The root hands down face 1 by two routes, the dearer one listed first. */
  function TwoAbove(routes: seq<Route>): RibTable {
    map[ROOT := RibEntry(None, [A], [UP, CHEAP], [], 0),
        A := RibEntry(Some(ROOT), [], routes, [], CaptureCount(routes))]
  }

  lemma TwoAboveInOrder(routes: seq<Route>)
    requires routes != [] && UniqueRoutes(routes) && Captures(routes)
    ensures InOrder(TwoAbove(routes))
  {
    var rib := TwoAbove(routes);
    PairLinked(rib);
    TwoRoutes(UP, CHEAP, 1, true);
    forall n, f | n in rib ensures rib[n].HasInherited(f) <==> Inherits(rib, n, f) {
      assert n == ROOT ==> Source(rib, ROOT, 0, f) == None;
    }
  }

  /** "/a" stops capturing: it is given face 1 at the cost of the route listed first,
      not at the lowest. */
  lemma ReopenedAtWrongCost()
    ensures var plain, x := Route(2, 0, 0, false, false), Route(4, 0, 0, false, true);
            var rib := TwoAbove([plain, x]);
            var after := rib[A := EraseRoute(rib[A], x)];
            && InOrder(rib) && ErasedInOrder(rib, after, A, x, None)
            && UnregisterOp(rib, A, x, None, A, 1) == Add(10) && NextHop(after, A, 1) == Some(5)
            && Mispriced(rib, A, x, None, A, 1)
  {
    var plain, x := Route(2, 0, 0, false, false), Route(4, 0, 0, false, true);
    var rib := TwoAbove([plain, x]);
    TwoRoutes(plain, x, 1, false);
    TwoAboveInOrder([plain, x]);
    LastErased(rib[A], plain, x);
    assert x in [plain, x];
    MispricedOp(rib, rib[A := EraseRoute(rib[A], x)], plain, x);
  }

  lemma LastErased(e: RibEntry, x: Route, y: Route)
    requires e.routes == [x, y] && !SameKey(x, y) && y.capture && !x.capture && e.nCapture == 1
    ensures EraseRoute(e, y) == e.(routes := [x], nCapture := 0)
  {
    assert FindRoute([x, y][1..], y) == 0;
    assert FindRoute([x, y], y) == 1;
    assert [x, y][..1] + [x, y][2..] == [x];
  }

  lemma MispricedOp(rib: RibTable, after: RibTable, plain: Route, x: Route)
    requires plain == Route(2, 0, 0, false, false) && x == Route(4, 0, 0, false, true)
    requires rib == TwoAbove([plain, x]) && EraseRoute(rib[A], x) == rib[A].(routes := [plain], nCapture := 0)
    requires after == rib[A := EraseRoute(rib[A], x)] && rib[A].nCapture == 1
    ensures UnregisterOp(rib, A, x, None, A, 1) == Add(10) && NextHop(after, A, 1) == Some(5)
    ensures Mispriced(rib, A, x, None, A, 1)
  {
    UnderTwo(rib);
    UnderTwo(after);
    OnlyRoute(plain, 1, false);
  }

  lemma UnderTwo(rib: RibTable)
    requires ROOT in rib && rib[ROOT].routes == [UP, CHEAP]
    ensures AncestorRoute(rib, A, 1) == Some(UP) && InheritCost(rib, A, 1) == Some(5)
  {
    TwoRoutes(UP, CHEAP, 1, true);
    assert A[..0] == ROOT;
  }

  /** "/a/b" has recorded face 2 twice; erasing the route of "/a" that hands it down takes
      only one of the records away. */
  lemma ErasedRecordStays()
    ensures var plain, x, z := Route(4, 0, 0, false, false), Route(2, 0, 5, true, false), Route(2, 1, 9, true, false);
            var rib := Tree([plain, x], [UP], [UP, x, z]);
            var after := Erased(plain, x, [UP], [UP, x, z]);
            && InOrder(rib) && ErasedInOrder(rib, after, A, x, None)
            && ErasedDoubled(rib, A, x, None, AB, 2)
            && !RecordsRight(rib, after, UnregisterState(rib, A, x, None, AB, 2), AB, 2)
  {
    var plain, x, z := Route(4, 0, 0, false, false), Route(2, 0, 5, true, false), Route(2, 1, 9, true, false);
    var rib := Tree([plain, x], [UP], [UP, x, z]);
    assert UP in [UP, x, z] && x in [UP, x, z];
    TwoRoutesInOrder(plain, x, [UP], [UP, x, z]);
    ErasesInOrder(plain, x, [UP], [UP, x, z], None);
    CountTwoOfThree(UP, x, z);
    ErasedTwice(rib, plain, x);
    EntriesCapture(rib);
    UnregisterRecords(rib, Erased(plain, x, [UP], [UP, x, z]), A, x, None, AB, 2);
  }

  lemma ErasedTwice(rib: RibTable, plain: Route, x: Route)
    requires rib.Keys == {ROOT, A, AB} && rib[ROOT].routes == [UP] && rib[A].routes == [plain, x]
    requires rib[AB].routes == [LEAF] && rib[AB].nCapture == 0 && RecordCount(rib, AB, 2) > 1
    requires plain == Route(4, 0, 0, false, false) && x == Route(2, 0, 5, true, false)
    ensures ErasedDoubled(rib, A, x, None, AB, 2) && !Dropped(rib, A, x, None, AB, 2)
  {
    UnderRoot(rib, 2);
    UnderA(rib, 2);
    EraseSecond(rib[A], plain, x);
    OnlyRoute(plain, 2, true);
  }

  lemma CountTwoOfThree(w: Route, x: Route, y: Route)
    requires x.faceId == y.faceId != w.faceId
    ensures CountOn([w, x, y], x.faceId) == 2
  {
    assert [w, x, y][..2] == [w, x] && [w, x][..1] == [w] && [w][..0] == [];
    assert CountOn([w], x.faceId) == 0 && CountOn([w, x], x.faceId) == 1;
  }

  // -------------------------------------------------------------- replacements

  lemma ReplaceFirst(e: RibEntry, x: Route, y: Route, r: Route)
    requires e.routes == [x, y] && SameKey(x, r) && !SameKey(x, y)
    ensures FindRoute(e.routes, r) == 0 && ReplaceRoute(e, r) == e.(routes := [r, y])
  {
    assert [x, y][0 := r] == [r, y];
  }

  /** The tree after the first of two routes of "/a" has got the cost of `r`. */
  function Replaced(x: Route, y: Route, r: Route, below: seq<Route>): RibTable {
    var rib := Tree([x, y], [UP], below);
    rib[A := ReplaceRoute(rib[A], r)]
  }

  lemma ReplacesInOrder(x: Route, y: Route, r: Route, below: seq<Route>)
    requires SameKey(x, r) && !SameKey(x, y)
    ensures RouteReplaced(Tree([x, y], [UP], below), Replaced(x, y, r, below), A, x, r)
    ensures Replaced(x, y, r, below) == Tree([x, y], [UP], below)[A := Tree([x, y], [UP], below)[A].(routes := [r, y])]
  {
    ReplaceFirst(Tree([x, y], [UP], below)[A], x, y, r);
    assert x in [x, y];
  }

  /** The cheapest route that "/a" hands down becomes dearer than its other one: "/a/b"
      keeps the old cost. */
  lemma SubtreeNotTold()
    ensures var x, y := Route(2, 0, 5, true, false), Route(2, 1, 10, true, false);
            var r := x.(cost := 20);
            var rib := Tree([x, y], [UP], [UP, x]);
            var after := Replaced(x, y, r, [UP, x]);
            && InOrder(rib) && RouteReplaced(rib, after, A, x, r)
            && ReplacedState(rib, A, x, r, AB, 2).op == Keep
            && NextHop(rib, AB, 2) == Some(5) && NextHop(after, AB, 2) == Some(10)
  {
    var x, y := Route(2, 0, 5, true, false), Route(2, 1, 10, true, false);
    var r := x.(cost := 20);
    assert UP in [UP, x] && x in [UP, x];
    TwoRoutesInOrder(x, y, [UP], [UP, x]);
    ReplacesInOrder(x, y, r, [UP, x]);
    NotToldOp(x, y, r, [UP, x]);
    UnderA(Tree([x, y], [UP], [UP, x]), 2);
    UnderA(Replaced(x, y, r, [UP, x]), 2);
    TwoRoutes(x, y, 2, true);
    TwoRoutes(r, y, 2, true);
  }

  lemma NotToldOp(x: Route, y: Route, r: Route, below: seq<Route>)
    requires r == x.(cost := r.cost) && x.childInherit && y.childInherit && !SameKey(x, y) && x.faceId == y.faceId != 3
    requires y.cost < r.cost
    ensures ReplacedState(Tree([x, y], [UP], below), A, x, r, AB, x.faceId).op == Keep
  {
    var rib := Tree([x, y], [UP], below);
    ReplaceFirst(rib[A], x, y, r);
    UnderA(rib, x.faceId);
    ReplacedBelowOp(rib, A, ReplaceRoute(rib[A], r), x, r, AB, x.faceId);
    TwoRoutes(r, y, x.faceId, true);
  }

  /** The cheapest route becomes dearer than one that is not handed down: the source
      installs the cheapest route that is handed down, or finds none and breaks. */
  lemma RaisedCost(handedDown: bool)
    ensures var x, y := Route(2, 0, 5, handedDown, false), Route(2, 1, 10, false, false);
            var r := x.(cost := 20);
            var below := if handedDown then [UP, x] else [UP];
            var rib := Tree([x, y], [UP], below);
            && InOrder(rib) && RouteReplaced(rib, Replaced(x, y, r, below), A, x, r)
            && NextHop(Replaced(x, y, r, below), A, 2) == Some(10)
            && (handedDown ==> ReplacedState(rib, A, x, r, A, 2).op == Add(20))
            && (RegistrationBreaks(rib, A, r) <==> !handedDown)
  {
    var x, y := Route(2, 0, 5, handedDown, false), Route(2, 1, 10, false, false);
    var r := x.(cost := 20);
    var below := if handedDown then [UP, x] else [UP];
    assert UP in below && (handedDown ==> x in below);
    TwoRoutesInOrder(x, y, [UP], below);
    ReplacesInOrder(x, y, r, below);
    RaisedCostOp(x, y, r, below);
    TwoRoutes(r, y, 2, false);
  }

  lemma RaisedCostOp(x: Route, y: Route, r: Route, below: seq<Route>)
    requires r == x.(cost := r.cost) && !x.capture && !SameKey(x, y) && x.faceId == y.faceId && !y.childInherit
    requires x.cost < y.cost < r.cost
    ensures var rib := Tree([x, y], [UP], below);
            && (RegistrationBreaks(rib, A, r) <==> !x.childInherit)
            && (x.childInherit ==> ReplacedState(rib, A, x, r, A, x.faceId).op == Add(r.cost))
  {
    var rib := Tree([x, y], [UP], below);
    ReplaceFirst(rib[A], x, y, r);
    TwoRoutes(r, y, x.faceId, false);
    TwoRoutes(r, y, x.faceId, true);
  }

  /** The tree after the one route of "/a" has been registered again. */
  function Changed(x: Route, r: Route, below: seq<Route>): RibTable {
    var rib := Tree([x], [], below);
    rib[A := ReplaceRoute(rib[A], r)]
  }

  lemma ChangesInOrder(x: Route, r: Route, below: seq<Route>)
    requires SameKey(x, r)
    ensures RouteReplaced(Tree([x], [], below), Changed(x, r, below), A, x, r)
    ensures ReplaceRoute(Tree([x], [], below)[A], r) == Tree([x], [], below)[A].(routes := [r])
  {
    assert x in [x] && [x][0 := r] == [r];
  }

  lemma OneRouteInOrder(x: Route)
    requires x.faceId == 1 && x.childInherit
    ensures InOrder(Tree([x], [], [x]))
  {
    forall f
      ensures HasRouteOn([x], f, false) <==> f == 1
      ensures HasRouteOn([x], f, true) <==> f == 1
    {
      OnlyRoute(x, f, false);
      OnlyRoute(x, f, true);
    }
    TreeInOrder([x], [], [x]);
  }

  /** What the subtree of "/a" is given on face 1 when the flags of its one route change,
      and what it should have. */
  lemma ChangedBelow(x: Route, r: Route)
    requires SameKey(x, r) && x.faceId == 1 && x.cost == r.cost && x.childInherit
    ensures ReplacedState(Tree([x], [], [x]), A, x, r, AB, 1).op ==
            if CaptureTurnedOn(x, r) then Remove
            else if CaptureTurnedOff(x, r) || !r.childInherit then Add(10)
            else Keep
    ensures NextHop(Changed(x, r, [x]), AB, 1) ==
            if r.childInherit then Some(r.cost) else if r.capture then None else Some(10)
  {
    var rib, after := Tree([x], [], [x]), Changed(x, r, [x]);
    ChangesInOrder(x, r, [x]);
    UnderRoot(rib, 1);
    UnderA(rib, 1);
    ReplacedBelowOp(rib, A, ReplaceRoute(rib[A], r), x, r, AB, 1);
    OnlyRoute(x, 1, false);
    OnlyRoute(r, 1, true);
    UnderRoot(after, 1);
    UnderA(after, 1);
  }

  /** "/a" sets the capture flag on the route it hands down: the route is withdrawn from
      its own subtree. */
  lemma CaptureWithdrawsOwnRoute()
    ensures var x := Route(1, 0, 20, true, false);
            var r := x.(capture := true);
            var rib, after := Tree([x], [], [x]), Changed(x, r, [x]);
            && InOrder(rib) && RouteReplaced(rib, after, A, x, r)
            && ReplacedState(rib, A, x, r, AB, 1).op == Remove && NextHop(after, AB, 1) == Some(20)
            && Shut(rib, A, x, r, AB, 1) && Lost(rib, A, x, r, AB, 1)
  {
    var x := Route(1, 0, 20, true, false);
    var r := x.(capture := true);
    OneRouteInOrder(x);
    ChangesInOrder(x, r, [x]);
    ChangedBelow(x, r);
    ChangedFaults(x, r);
  }

  lemma ChangedFaults(x: Route, r: Route)
    requires SameKey(x, r) && x.faceId == 1 && x.cost == r.cost && x.childInherit
    ensures CaptureTurnedOn(x, r) && r.childInherit ==>
              Shut(Tree([x], [], [x]), A, x, r, AB, 1) && Lost(Tree([x], [], [x]), A, x, r, AB, 1)
    ensures x.capture && r.capture && !r.childInherit ==>
              LetThrough(Tree([x], [], [x]), A, x, r, AB, 1) && Phantom(Tree([x], [], [x]), A, x, r, AB, 1)
  {
    var rib := Tree([x], [], [x]);
    ChangesInOrder(x, r, [x]);
    UnderRoot(rib, 1);
    UnderA(rib, 1);
    OnlyRoute(x, 1, true);
    OnlyRoute(r, 1, true);
  }

  /** "/a" captures and stops handing down its route: the root's route is let through the
      capture into its subtree. */
  lemma LetThroughCapture()
    ensures var x := Route(1, 0, 20, true, true);
            var r := x.(childInherit := false);
            var rib, after := Tree([x], [], [x]), Changed(x, r, [x]);
            && InOrder(rib) && RouteReplaced(rib, after, A, x, r)
            && ReplacedState(rib, A, x, r, AB, 1).op == Add(10) && NextHop(after, AB, 1) == None
            && LetThrough(rib, A, x, r, AB, 1) && Phantom(rib, A, x, r, AB, 1)
  {
    var x := Route(1, 0, 20, true, true);
    var r := x.(childInherit := false);
    OneRouteInOrder(x);
    ChangesInOrder(x, r, [x]);
    ChangedBelow(x, r);
    ChangedFaults(x, r);
  }

  /** Two routes of "/a" capture; one of them stops, and the root's route is given to "/a"
      and its subtree although the other still captures. */
  lemma ReopenedUnderCapture()
    ensures var x, y := Route(2, 0, 0, false, true), Route(2, 1, 0, false, true);
            var r := x.(capture := false);
            var rib := Tree([x, y], [], []);
            var after := rib[A := ReplaceRoute(rib[A], r)];
            && InOrder(rib) && RouteReplaced(rib, after, A, x, r)
            && ReplacedState(rib, A, x, r, A, 1).op == Add(10) && NextHop(after, A, 1) == None
            && ReplacedState(rib, A, x, r, AB, 1).op == Add(10) && NextHop(after, AB, 1) == None
            && Reopened(rib, A, x, r, A, 1) && Reopened(rib, A, x, r, AB, 1)
  {
    var x, y := Route(2, 0, 0, false, true), Route(2, 1, 0, false, true);
    var r := x.(capture := false);
    var rib := Tree([x, y], [], []);
    CapturesInOrder(x, y);
    ReplaceFirst(rib[A], x, y, r);
    assert x in [x, y];
    ReopenedOps(rib, x, y, r);
    ReopenedHops(rib[A := ReplaceRoute(rib[A], r)], r, y);
  }

  lemma CapturesInOrder(x: Route, y: Route)
    requires !SameKey(x, y) && x.capture && y.capture && !x.childInherit && !y.childInherit
    ensures InOrder(Tree([x, y], [], []))
  {
    forall f
      ensures !HasRouteOn([x, y], f, true) && Captures([x, y]) && !HasRouteOn([], f, false)
    {
      TwoRoutes(x, y, f, true);
    }
    TreeInOrder([x, y], [], []);
  }

  lemma ReopenedOps(rib: RibTable, x: Route, y: Route, r: Route)
    requires rib == Tree([x, y], [], []) && r == x.(capture := false) &&
        ReplaceRoute(rib[A], r) == rib[A].(routes := [r, y])
    requires x.capture && y.capture && !x.childInherit && !y.childInherit && x.faceId == y.faceId == 2
    ensures ReplacedState(rib, A, x, r, A, 1).op == Add(10) && ReplacedState(rib, A, x, r, AB, 1).op == Add(10)
    ensures Reopened(rib, A, x, r, A, 1) && Reopened(rib, A, x, r, AB, 1)
  {
    UnderRoot(rib, 1);
    UnderA(rib, 1);
    ReplacedBelowOp(rib, A, ReplaceRoute(rib[A], r), x, r, AB, 1);
    TwoRoutes(r, y, 1, false);
    TwoRoutes(r, y, 1, true);
  }

  lemma ReopenedHops(rib: RibTable, r: Route, y: Route)
    requires rib.Keys == {ROOT, A, AB} && rib[A].routes == [r, y] && rib[AB].routes == [LEAF] && rib[AB].nCapture == 0
    requires y.capture && r.faceId == y.faceId == 2
    ensures NextHop(rib, A, 1) == None && NextHop(rib, AB, 1) == None
  {
    UnderA(rib, 1);
    TwoRoutes(r, y, 1, false);
    TwoRoutes(r, y, 1, true);
  }
}
