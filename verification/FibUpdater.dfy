/** `FibUpdater`, first half: computing the FIB updates of one RIB change. */
module FibUpdaters {
  import opened Options
  import opened RibEntries
  import opened RibTrees
  import opened FibDeltas

  datatype Action = AddNextHop | RemoveNextHop

  datatype FibUpdate = FibUpdate(name: Name, faceId: FaceId, cost: nat, action: Action)

  function AddUpdate(n: Name, f: FaceId, cost: nat): FibUpdate { FibUpdate(n, f, cost, AddNextHop) }

  function RemoveUpdate(n: Name, f: FaceId): FibUpdate { FibUpdate(n, f, 0, RemoveNextHop) }

  datatype RibAction = Register | Unregister | RemoveFace

  datatype RibUpdate = RibUpdate(action: RibAction, name: Name, route: Route)

  // ------------------------------------------------------- reading the lists

  function ToOp(u: FibUpdate): Op {
    match u.action
    case AddNextHop => Add(u.cost)
    case RemoveNextHop => Remove
  }

  predicate HasKey(u: FibUpdate, n: Name, f: FaceId) { u.name == n && u.faceId == f }

  function PendingOp(us: seq<FibUpdate>, n: Name, f: FaceId): Op {
    if us == [] then Keep
    else if HasKey(us[0], n, f) then ToOp(us[0])
    else PendingOp(us[1..], n, f)
  }

  ghost predicate UniqueKeys(us: seq<FibUpdate>) {
    forall i, j :: 0 <= i < j < |us| ==> !HasKey(us[j], us[i].name, us[i].faceId)
  }

  function CountRecords(log: seq<RibUpdate>, a: RibAction, n: Name, f: FaceId): nat {
    if log == [] then 0
    else
      var u := log[|log| - 1];
      CountRecords(log[..|log| - 1], a, n, f) + (if u.action == a && u.name == n && u.route.faceId == f then 1 else 0)
  }

  /** The records of the pair a list must hold before the log is applied, so that every
      removal finds one at its turn. */
  function Need(log: seq<RibUpdate>, n: Name, f: FaceId): nat {
    if log == [] then 0
    else
      var init, u := log[..|log| - 1], log[|log| - 1];
      if u.action == Unregister && u.name == n && u.route.faceId == f
      then NeedNext(CountRecords(init, Register, n, f), CountRecords(init, Unregister, n, f), Need(init, n, f))
      else Need(init, n, f)
  }

  lemma {:induction false} PendingOpAt(us: seq<FibUpdate>, i: nat)
    requires UniqueKeys(us) && i < |us|
    ensures PendingOp(us, us[i].name, us[i].faceId) == ToOp(us[i])
  {
    if i > 0 {
      assert us[1..][i - 1] == us[i];
      PendingOpAt(us[1..], i - 1);
    }
  }

  lemma {:induction false} PendingOpAbsent(us: seq<FibUpdate>, n: Name, f: FaceId)
    requires forall i :: 0 <= i < |us| ==> !HasKey(us[i], n, f)
    ensures PendingOp(us, n, f) == Keep
  {
    if us != [] {
      assert forall i :: 0 <= i < |us[1..]| ==> us[1..][i] == us[i + 1];
      PendingOpAbsent(us[1..], n, f);
    }
  }

  /** Lists that differ in updates of other keys only agree on a key. */
  lemma {:induction false} PendingOpReplaced(us: seq<FibUpdate>, i: nat, u: FibUpdate, n: Name, f: FaceId)
    requires i < |us| && HasKey(us[i], u.name, u.faceId) && !HasKey(u, n, f)
    ensures PendingOp(us[i := u], n, f) == PendingOp(us, n, f)
  {
    if i == 0 {
      assert us[i := u][1..] == us[1..];
    } else {
      assert us[i := u][1..] == us[1..][i - 1 := u];
      PendingOpReplaced(us[1..], i - 1, u, n, f);
    }
  }

  lemma {:induction false} PendingOpAppended(us: seq<FibUpdate>, u: FibUpdate, n: Name, f: FaceId)
    requires !HasKey(u, n, f)
    ensures PendingOp(us + [u], n, f) == PendingOp(us, n, f)
  {
    if us == [] {
      assert us + [u] == [u];
      assert PendingOp([u], n, f) == PendingOp([u][1..], n, f);
    } else {
      assert (us + [u])[1..] == us[1..] + [u];
      PendingOpAppended(us[1..], u, n, f);
    }
  }

  /** Replace the update of the same key, or append. */
  method PutUpdate(us: seq<FibUpdate>, u: FibUpdate) returns (r: seq<FibUpdate>)
    requires UniqueKeys(us)
    ensures UniqueKeys(r)
    ensures PendingOp(r, u.name, u.faceId) == ToOp(u)
    ensures forall n, f :: !HasKey(u, n, f) ==> PendingOp(r, n, f) == PendingOp(us, n, f)
    ensures forall x :: x in r ==> x in us || x == u
  {
    var i := 0;
    while i < |us| && !HasKey(us[i], u.name, u.faceId)
      invariant i <= |us|
      invariant forall j :: 0 <= j < i ==> !HasKey(us[j], u.name, u.faceId)
    {
      i := i + 1;
    }
    if i < |us| {
      r := us[i := us[i].(action := u.action, cost := u.cost)];
      forall n, f | !HasKey(u, n, f) ensures PendingOp(r, n, f) == PendingOp(us, n, f) {
        PendingOpReplaced(us, i, u, n, f);
      }
    } else {
      r := us + [u];
      forall n, f | !HasKey(u, n, f) ensures PendingOp(r, n, f) == PendingOp(us, n, f) {
        PendingOpAppended(us, u, n, f);
      }
    }
    PendingOpAt(r, i);
  }

  // ---------------------------------------------------------------- the walk

  /** No entry from `c` down to `d`, both included, stops the walk for the face. */
  ghost predicate PathClearFrom(rib: RibTable, c: Name, d: Name, f: FaceId) {
    forall p :: p in rib && c <= p && p <= d ==> !StopsWalk(rib[p], f)
  }

  /** The walk over the subtree rooted at the entry `c`. */
  ghost function WalkFrom(rib: RibTable, c: Name, add: Option<Route>, remove: bool,
                          d: Name, f: FaceId, k: KeyState): KeyState
  {
    if d in rib && c <= d && PathClearFrom(rib, c, d, f) then Visit(rib[d], add, remove, f, k) else k
  }

  ghost predicate Under(cs: seq<Name>, d: Name) {
    exists c :: c in cs && c <= d
  }

  /** Every entry below `n` is below exactly one of the entries directly below `n`. */
  lemma {:induction false} SomeChildAbove(rib: RibTable, n: Name, d: Name) returns (c: Name)
    requires d in rib && n < d
    ensures c in rib && n < c && c <= d && DirectlyBelow(rib, n, c)
    decreases |d|
  {
    if DirectlyBelow(rib, n, d) {
      c := d;
    } else {
      var p :| p in rib && n < p < d;
      c := SomeChildAbove(rib, n, p);
    }
  }

  lemma WalkThroughChild(rib: RibTable, n: Name, c: Name, add: Option<Route>, remove: bool,
                         d: Name, f: FaceId, k: KeyState)
    requires c in rib && n < c && DirectlyBelow(rib, n, c) && c <= d
    ensures WalkBelow(rib, n, add, remove, d, f, k) == WalkFrom(rib, c, add, remove, d, f, k)
  {
  }

  lemma ChildrenDisjoint(rib: RibTable, n: Name, a: Name, b: Name, d: Name)
    requires a in rib && n < a && DirectlyBelow(rib, n, a)
    requires b in rib && n < b && DirectlyBelow(rib, n, b)
    requires a <= d && b <= d
    ensures a == b
  {
  }

  /** The walk of a subtree is the visit of its root, then the walk below it without
      the faces the root stops. */
  lemma WalkUnfolds(rib: RibTable, c: Name, add: Option<Route>, remove: bool, d: Name, f: FaceId, k: KeyState)
    requires c in rib
    ensures rib[c].HasCapture() ==> WalkFrom(rib, c, add, remove, d, f, k) == k
    ensures !rib[c].HasCapture() && HasRouteOn(rib[c].routes, f, true) ==>
              WalkFrom(rib, c, add, remove, d, f, k) == k
    ensures !rib[c].HasCapture() && !HasRouteOn(rib[c].routes, f, true) ==>
              WalkFrom(rib, c, add, remove, d, f, k) ==
              if d == c then Visit(rib[c], add, remove, f, k) else WalkBelow(rib, c, add, remove, d, f, k)
    ensures WalkBelow(rib, c, None, false, d, f, k) == k
    ensures d == c ==> WalkBelow(rib, c, add, remove, d, f, k) == k
  {
    if StopsWalk(rib[c], f) {
      if c <= d {
        assert !PathClearFrom(rib, c, d, f);
      }
    } else if c < d && PathClear(rib, c, d, f) {
      forall p | p in rib && c <= p && p <= d ensures !StopsWalk(rib[p], f) {
        assert p == c || c < p;
      }
    } else if c == d {
      forall p | p in rib && c <= p && p <= d ensures !StopsWalk(rib[p], f) {
        assert p == c;
      }
    }
  }

  /** The three phases of `traverseSubTree` seen from one (name, face) pair. */
  lemma TraverseKey(rib: RibTable, c: Name, add: Option<Route>, remove: bool, d: Name, f: FaceId,
                    k0: KeyState, k1: KeyState, k2: KeyState, add': Option<Route>, remove': bool)
    requires c in rib && !rib[c].HasCapture()
    requires add' == if HasRouteOn(rib[c].routes, f, true) then None else add
    requires remove' == (remove && !HasRouteOn(rib[c].routes, f, true))
    requires k1 == if d == c && remove' && rib[c].HasInherited(f) then RemoveInherited(k0) else k0
    requires k2 == if d == c && add'.Some? && !rib[c].HasFaceId(f) then AddInherited(k1, add'.value.cost) else k1
    ensures WalkBelow(rib, c, add', remove', d, f, k2) == WalkFrom(rib, c, add, remove, d, f, k0)
  {
    WalkUnfolds(rib, c, add, remove, d, f, k0);
    if d == c {
      assert WalkBelow(rib, c, add', remove', d, f, k2) == k2;
    }
  }

  /** The walk over the subtrees of some of the entries directly below `n`. */
  ghost function WalkUnder(rib: RibTable, n: Name, cs: seq<Name>, add: Option<Route>, remove: bool,
                           d: Name, f: FaceId, k: KeyState): KeyState
  {
    if Under(cs, d) then WalkBelow(rib, n, add, remove, d, f, k) else k
  }

  lemma WalkNextChild(rib: RibTable, n: Name, cs: seq<Name>, i: nat, add: Option<Route>, remove: bool,
                      d: Name, f: FaceId, k: KeyState)
    requires ChildrenOf(rib, n, cs) && i < |cs|
    ensures WalkUnder(rib, n, cs[..i + 1], add, remove, d, f, k) ==
            WalkFrom(rib, cs[i], add, remove, d, f, WalkUnder(rib, n, cs[..i], add, remove, d, f, k))
  {
    var c := cs[i];
    assert c in cs;
    assert cs[..i + 1] == cs[..i] + [c];
    if Under(cs[..i], d) {
      var j :| 0 <= j < i && cs[j] <= d;
      assert cs[j] in cs && cs[j] in cs[..i + 1];
      if c <= d {
        ChildrenDisjoint(rib, n, cs[j], c, d);
        assert false;
      }
    } else if c <= d {
      WalkThroughChild(rib, n, c, add, remove, d, f, k);
      assert c in cs[..i + 1];
    }
  }

  lemma WalkAllChildren(rib: RibTable, n: Name, cs: seq<Name>, add: Option<Route>, remove: bool,
                        d: Name, f: FaceId, k: KeyState)
    requires ChildrenOf(rib, n, cs)
    ensures WalkUnder(rib, n, cs, add, remove, d, f, k) == WalkBelow(rib, n, add, remove, d, f, k)
  {
    if d in rib && n < d {
      var c := SomeChildAbove(rib, n, d);
      assert c in cs;
    }
  }

  function NamesFrom(rib: RibTable, c: Name): set<Name> { set m | m in rib && c <= m }

  function NamesBelow(rib: RibTable, n: Name): set<Name> { set m | m in rib && n < m }

  function Recorded(k: KeyState, a: RibAction): KeyState {
    match a
    case Register => k.(regs := k.regs + 1)
    case Unregister => k.(unregs := k.unregs + 1, need := NeedNext(k.regs, k.unregs, k.need))
    case RemoveFace => k
  }

  ghost predicate KeyedByFace(rs: RouteSet) {
    forall f :: f in rs ==> rs[f].faceId == f
  }

  /** What a registration leaves pending: a new name, a new route, or new cost and
      flags for a route the entry has. */
  ghost function RegisterKey(rib: RibTable, n: Name, r: Route, d: Name, f: FaceId): KeyState {
    if n !in rib then NewEntryKey(rib, n, r, d, f)
    else
      var i := FindRoute(rib[n].routes, r);
      if i == |rib[n].routes| then NewRouteKey(rib, n, rib[n], r, !rib[n].HasCapture() && r.capture, d, f, NOTHING)
      else ReplacedRouteKey(rib, n, ReplaceRoute(rib[n], r), r, rib[n].routes[i], d, f, NOTHING)
  }

  /** A registration on which the source follows a null pointer. */
  predicate RegistrationBreaks(rib: RibTable, n: Name, r: Route) {
    && n in rib
    && var i := FindRoute(rib[n].routes, r);
       i < |rib[n].routes| && ReadsMissingRoute(ReplaceRoute(rib[n], r), r, rib[n].routes[i])
  }

  /** What an unregistration leaves pending: nothing if there is no such route. */
  ghost function UnregisterIfFound(rib: RibTable, n: Name, r: Route, next: Option<Route>, d: Name,
                                   f: FaceId): KeyState
  {
    if n in rib && FindRoute(rib[n].routes, r) < |rib[n].routes|
    then UnregisterKey(rib, n, rib[n], rib[n].routes[FindRoute(rib[n].routes, r)], next, d, f)
    else NOTHING
  }

  lemma AppendedFace(routes: seq<Route>, r: Route, f: FaceId)
    ensures HasRouteOn(routes + [r], f, false) <==> HasRouteOn(routes, f, false) || r.faceId == f
  {
    assert forall x :: x in routes + [r] <==> x in routes || x == r;
    assert Matches(r, r.faceId, false);
  }

  lemma FindRouteOfFound(routes: seq<Route>, r: Route)
    requires FindRoute(routes, r) < |routes|
    ensures FindRoute(routes, routes[FindRoute(routes, r)]) == FindRoute(routes, r)
  {
  }

  /** The four cases of `createFibUpdatesForNewRibEntry` seen from one (name, face) pair. */
  lemma NewEntryKeySteps(rib: RibTable, n: Name, r: Route, d: Name, f: FaceId, anc: Option<Route>, k: KeyState)
    requires anc == AncestorRoute(rib, n, f)
    requires var own := if d == n && f == r.faceId then NOTHING.(op := Add(r.cost)) else NOTHING;
             var self := if d == n && anc.Some? && f != r.faceId then AddInherited(own, anc.value.cost) else own;
             k == if !r.childInherit && !r.capture then self
                  else if r.childInherit && r.capture then
                    WalkBelow(rib, n, if f == r.faceId then Some(r) else None, anc.Some?, d, f, own)
                  else if r.childInherit then
                    WalkBelow(rib, n, if f == r.faceId then Some(r) else anc, false, d, f, self)
                  else WalkBelow(rib, n, None, anc.Some?, d, f, own)
    ensures k == NewEntryKey(rib, n, r, d, f)
  {
  }

  /** The phases of `createFibUpdatesForNewRoute` seen from one (name, face) pair. */
  lemma NewRouteKeySteps(rib: RibTable, n: Name, e: RibEntry, r: Route, captureOn: bool, d: Name, f: FaceId,
                         add: Option<Route>, remove: bool,
                         k0: KeyState, k1: KeyState, k2: KeyState, k3: KeyState)
    requires add == NewRouteAdds(e, r, f)
    requires remove <==> captureOn && AncestorRoute(rib, n, f).Some?
    requires k1 == if d == n && remove && e.HasInherited(f) then RemoveInherited(k0) else k0
    requires k2 == WalkBelow(rib, n, add, remove, d, f, k1)
    requires k3 == if d == n && f == r.faceId && NotWorse(r, e.routes, false) then k2.(op := Add(r.cost)) else k2
    ensures k3 == NewRouteKey(rib, n, e, r, captureOn, d, f, k0)
  {
  }

  /** The last phase of `createFibUpdatesForUpdatedRoute` seen from one (name, face) pair. */
  ghost function CaptureKey(rib: RibTable, n: Name, e: RibEntry, r: Route, x: Route, d: Name, f: FaceId,
                            k: KeyState): KeyState
  {
    var anc := AncestorRoute(rib, n, f);
    if CaptureTurnedOn(x, r) then
      WalkBelow(rib, n, None, anc.Some?, d, f, if d == n && anc.Some? && e.HasInherited(f) then RemoveInherited(k)
          else k)
    else if CaptureTurnedOff(x, r) then
      WalkBelow(rib, n, anc, false, d, f, if d == n && anc.Some? && !e.HasFaceId(f)
          then AddInherited(k, anc.value.cost) else k)
    else k
  }

  /** The phases of `createFibUpdatesForUpdatedRoute` seen from one (name, face) pair. */
  lemma ReplacedKeySteps(rib: RibTable, n: Name, e: RibEntry, r: Route, x: Route, d: Name, f: FaceId,
                         k0: KeyState, k1: KeyState, k2: KeyState, k3: KeyState)
    requires k1 == if d == n && f == r.faceId then k0.(op := ReplacedOp(e, r, x, k0.op)) else k0
    requires k2 ==
        WalkBelow(rib, n, ReplacedAdds(e, r, x, AncestorRoute(rib, n, f), f), ReplacedRemoves(r, x, f), d, f, k1)
    requires k3 == CaptureKey(rib, n, e, r, x, d, f, k2)
    ensures k3 == ReplacedRouteKey(rib, n, e, r, x, d, f, k0)
  {
  }

  /** The phases of `createFibUpdatesForErasedRoute` seen from one (name, face) pair. */
  lemma ErasedKeySteps(rib: RibTable, n: Name, e: RibEntry, x: Route, off: bool, d: Name, f: FaceId,
                       k0: KeyState, k1: KeyState, k2: KeyState, k3: KeyState)
    requires var anc := AncestorRoute(rib, n, f);
             var start := if d == n && f == x.faceId then k0.(op := Remove) else k0;
             var add := if ErasedRouteUncovers(e, x, off) then anc else None;
             && k1 == (if d == n && x.capture && off && anc.Some? && !e.HasFaceId(f)
                       then AddInherited(start, anc.value.cost) else start)
             && k2 == (if x.childInherit || x.capture
                       then WalkBelow(rib, n, add, x.childInherit && f == x.faceId, d, f, k1) else k1)
             && k3 == (if d == n && !e.HasCapture() && e.routes != [] && f == x.faceId && anc.Some?
                       then AddInherited(k2, anc.value.cost) else k2)
    ensures k3 == ErasedRouteKey(rib, n, e, x, off, d, f, k0)
  {
  }

  lemma AncestorsKeyed(rib: RibTable, n: Name, rs: RouteSet)
    requires IsAncestorRoutes(rib, n, rs)
    ensures KeyedByFace(rs)
    ensures forall f :: f in rs <==> AncestorRoute(rib, n, f).Some?
  {
    forall f ensures f in rs <==> AncestorRoute(rib, n, f).Some?
             ensures f in rs ==> rs[f].faceId == f {
      assert RouteOn(rs, f) == AncestorRoute(rib, n, f);
    }
  }

  class FibUpdater {
    var batchFaceId: FaceId
    var updatesForBatchFaceId: seq<FibUpdate>
    var updatesForNonBatchFaceId: seq<FibUpdate>
    var inheritedRoutes: seq<RibUpdate>

    /** What is pending per (name, face) pair; kept equal to what the lists hold. */
    ghost var pending: imap<(Name, FaceId), KeyState>

    /** No (name, face) pair twice, and the lists are split exactly by the batch face. */
    ghost predicate ListsValid()
      reads this
    {
      && UniqueKeys(updatesForBatchFaceId) && UniqueKeys(updatesForNonBatchFaceId)
      && (forall u :: u in updatesForBatchFaceId ==> u.faceId == batchFaceId)
      && (forall u :: u in updatesForNonBatchFaceId ==> u.faceId != batchFaceId)
      && (forall u :: u in inheritedRoutes ==> u.action != RemoveFace)
    }

    ghost predicate Valid()
      reads this
    {
      ListsValid() && forall n, f {:trigger Listed(n, f)} :: At(n, f) == Listed(n, f)
    }

    /** The state of a (name, face) pair read off the lists. */
    ghost function Listed(n: Name, f: FaceId): KeyState
      reads this
    {
      KeyState(PendingOp(if f == batchFaceId then updatesForBatchFaceId else updatesForNonBatchFaceId, n, f),
               CountRecords(inheritedRoutes, Register, n, f),
               CountRecords(inheritedRoutes, Unregister, n, f),
               Need(inheritedRoutes, n, f))
    }

    ghost function At(n: Name, f: FaceId): KeyState
      reads this
    {
      if (n, f) in pending then pending[(n, f)] else NOTHING
    }

    constructor (faceId: FaceId)
      ensures Valid() && batchFaceId == faceId
      ensures forall n, f :: At(n, f) == NOTHING
    {
      batchFaceId := faceId;
      updatesForBatchFaceId, updatesForNonBatchFaceId, inheritedRoutes := [], [], [];
      pending := imap[];
    }

    method AddFibUpdate(u: FibUpdate)
      requires Valid()
      modifies this
      ensures Valid() && batchFaceId == old(batchFaceId) && inheritedRoutes == old(inheritedRoutes)
      ensures At(u.name, u.faceId) == old(At(u.name, u.faceId)).(op := ToOp(u))
      ensures forall n, f :: !HasKey(u, n, f) ==> At(n, f) == old(At(n, f))
    {
      PutInList(u);
      pending := pending[(u.name, u.faceId) := At(u.name, u.faceId).(op := ToOp(u))];
      forall n, f ensures At(n, f) == Listed(n, f) {
        assert old(At(n, f)) == old(Listed(n, f));
      }
    }

    method PutInList(u: FibUpdate)
      requires ListsValid()
      modifies this`updatesForBatchFaceId, this`updatesForNonBatchFaceId
      ensures ListsValid()
      ensures Listed(u.name, u.faceId) == old(Listed(u.name, u.faceId)).(op := ToOp(u))
      ensures forall n, f :: !HasKey(u, n, f) ==> Listed(n, f) == old(Listed(n, f))
    {
      if u.faceId == batchFaceId {
        updatesForBatchFaceId := PutUpdate(updatesForBatchFaceId, u);
      } else {
        updatesForNonBatchFaceId := PutUpdate(updatesForNonBatchFaceId, u);
      }
    }

    /** `addInheritedRoute` and the FIB update that goes with it. */
    method GiveInherited(n: Name, r: Route)
      requires Valid()
      modifies this
      ensures Valid() && batchFaceId == old(batchFaceId)
      ensures At(n, r.faceId) == AddInherited(old(At(n, r.faceId)), r.cost)
      ensures forall d, f :: !(d == n && f == r.faceId) ==> At(d, f) == old(At(d, f))
    {
      Record(RibUpdate(Register, n, r));
      AddFibUpdate(AddUpdate(n, r.faceId, r.cost));
    }

    /** `removeInheritedRoute` and the FIB update that goes with it. */
    method TakeInherited(n: Name, r: Route)
      requires Valid()
      modifies this
      ensures Valid() && batchFaceId == old(batchFaceId)
      ensures At(n, r.faceId) == RemoveInherited(old(At(n, r.faceId)))
      ensures forall d, f :: !(d == n && f == r.faceId) ==> At(d, f) == old(At(d, f))
    {
      Record(RibUpdate(Unregister, n, r));
      AddFibUpdate(RemoveUpdate(n, r.faceId));
    }

    method Record(u: RibUpdate)
      requires Valid() && u.action != RemoveFace
      modifies this`inheritedRoutes, this`pending
      ensures Valid()
      ensures At(u.name, u.route.faceId) == Recorded(old(At(u.name, u.route.faceId)), u.action)
      ensures forall d, f :: !(d == u.name && f == u.route.faceId) ==> At(d, f) == old(At(d, f))
    {
      var n, f := u.name, u.route.faceId;
      inheritedRoutes := inheritedRoutes + [u];
      pending := pending[(n, f) := Recorded(At(n, f), u.action)];
      assert inheritedRoutes[..|inheritedRoutes| - 1] == old(inheritedRoutes);
      forall d, g ensures At(d, g) == Listed(d, g) {
        assert old(At(d, g)) == old(Listed(d, g));
      }
    }

    /** First loop of `traverseSubTree`: withdraw routes from the entry; a face the
        entry hands down itself is dropped from the set. */
    method TakeFromEntry(n: Name, e: RibEntry, routes: RouteSet) returns (kept: RouteSet)
      requires Valid() && KeyedByFace(routes)
      modifies this
      ensures Valid() && batchFaceId == old(batchFaceId)
      ensures KeyedByFace(kept)
      ensures forall f :: RouteOn(kept, f) == if HasRouteOn(e.routes, f, true) then None else RouteOn(routes, f)
      ensures forall d, f :: At(d, f) ==
                if d == n && f in kept && e.HasInherited(f) then RemoveInherited(old(At(d, f))) else old(At(d, f))
    {
      kept := routes;
      var todo := routes.Keys;
      while todo != {}
        invariant Valid() && batchFaceId == old(batchFaceId)
        invariant todo <= kept.Keys <= routes.Keys
        invariant forall f :: f in routes && f !in kept ==> HasRouteOn(e.routes, f, true)
        invariant forall f :: f in kept ==> kept[f] == routes[f] && (f in todo || !HasRouteOn(e.routes, f, true))
        invariant forall d, f :: At(d, f) ==
                    if d == n && f in kept && f !in todo && e.HasInherited(f) then RemoveInherited(old(At(d, f)))
                    else old(At(d, f))
        decreases |todo|
      {
        var f :| f in todo;
        var handsDown := HasChildInheritOnFaceId(e.routes, f);
        if handsDown {
          kept := kept - {f};
        } else if e.HasInherited(f) {
          TakeInherited(n, kept[f]);
        }
        todo := todo - {f};
      }
    }

    /** Second loop of `traverseSubTree`: offer routes to the entry. */
    method GiveToEntry(n: Name, e: RibEntry, routes: RouteSet) returns (kept: RouteSet)
      requires Valid() && KeyedByFace(routes)
      modifies this
      ensures Valid() && batchFaceId == old(batchFaceId)
      ensures KeyedByFace(kept)
      ensures forall f :: RouteOn(kept, f) == if HasRouteOn(e.routes, f, true) then None else RouteOn(routes, f)
      ensures forall d, f :: At(d, f) ==
                if d == n && f in kept && !e.HasFaceId(f) then AddInherited(old(At(d, f)), kept[f].cost)
                else old(At(d, f))
    {
      kept := routes;
      var todo := routes.Keys;
      while todo != {}
        invariant Valid() && batchFaceId == old(batchFaceId)
        invariant todo <= kept.Keys <= routes.Keys
        invariant forall f :: f in routes && f !in kept ==> HasRouteOn(e.routes, f, true)
        invariant forall f :: f in kept ==> kept[f] == routes[f] && (f in todo || !HasRouteOn(e.routes, f, true))
        invariant forall d, f :: At(d, f) ==
                    if d == n && f in kept && f !in todo && !e.HasFaceId(f)
                        then AddInherited(old(At(d, f)), kept[f].cost)
                    else old(At(d, f))
        decreases |todo|
      {
        var f :| f in todo;
        var handsDown := HasChildInheritOnFaceId(e.routes, f);
        if handsDown {
          kept := kept - {f};
        } else if !e.HasFaceId(f) {
          GiveInherited(n, kept[f]);
        }
        todo := todo - {f};
      }
    }

    /** `traverseSubTree` */
    method TraverseSubTree(rib: RibTable, c: Name, routesToAdd: RouteSet, routesToRemove: RouteSet)
      requires Valid() && ChildrenLinked(rib) && c in rib
      requires KeyedByFace(routesToAdd) && KeyedByFace(routesToRemove)
      modifies this
      ensures Valid() && batchFaceId == old(batchFaceId)
      ensures forall d, f :: At(d, f) ==
                WalkFrom(rib, c, RouteOn(routesToAdd, f), f in routesToRemove, d, f, old(At(d, f)))
      decreases NamesFrom(rib, c), 0
    {
      var e := rib[c];
      if e.HasCapture() {
        forall d, f {
          WalkUnfolds(rib, c, RouteOn(routesToAdd, f), f in routesToRemove, d, f, At(d, f));
        }
        return;
      }
      var removes := TakeFromEntry(c, e, routesToRemove);
      label Taken:
      var adds := GiveToEntry(c, e, routesToAdd);
      label Given:
      assert ChildrenOf(rib, c, rib[c].children);
      assert c in NamesFrom(rib, c) && c !in NamesBelow(rib, c);
      assert NamesBelow(rib, c) <= NamesFrom(rib, c);
      ModifyChildren(rib, c, e.children, adds, removes);
      forall d, f
        ensures At(d, f) == WalkFrom(rib, c, RouteOn(routesToAdd, f), f in routesToRemove, d, f, old(At(d, f)))
      {
        assert RouteOn(adds, f).Some? == (f in adds) && RouteOn(removes, f).Some? == (f in removes);
        TraverseKey(rib, c, RouteOn(routesToAdd, f), f in routesToRemove, d, f,
                    old(At(d, f)), old@Taken(At(d, f)), old@Given(At(d, f)), RouteOn(adds, f), f in removes);
      }
    }

    /** `modifyChildrensInheritedRoutes` for the entries directly below `n`. */
    method ModifyChildren(rib: RibTable, ghost n: Name, children: seq<Name>,
                          routesToAdd: RouteSet, routesToRemove: RouteSet)
      requires Valid() && ChildrenLinked(rib) && ChildrenOf(rib, n, children)
      requires KeyedByFace(routesToAdd) && KeyedByFace(routesToRemove)
      modifies this
      ensures Valid() && batchFaceId == old(batchFaceId)
      ensures forall d, f :: At(d, f) ==
                WalkBelow(rib, n, RouteOn(routesToAdd, f), f in routesToRemove, d, f, old(At(d, f)))
      decreases NamesBelow(rib, n), 1
    {
      for i := 0 to |children|
        invariant Valid() && batchFaceId == old(batchFaceId)
        invariant forall d, f :: At(d, f) ==
                    WalkUnder(rib, n, children[..i], RouteOn(routesToAdd, f), f in routesToRemove, d, f, old(At(d, f)))
      {
        assert children[i] in children;
        assert NamesFrom(rib, children[i]) <= NamesBelow(rib, n);
        TraverseSubTree(rib, children[i], routesToAdd, routesToRemove);
        forall d, f
          ensures At(d, f) == WalkUnder(rib, n, children[..i + 1], RouteOn(routesToAdd, f), f in routesToRemove,
                                        d, f, old(At(d, f)))
        {
          WalkNextChild(rib, n, children, i, RouteOn(routesToAdd, f), f in routesToRemove, d, f, old(At(d, f)));
        }
      }
      forall d, f
        ensures At(d, f) == WalkBelow(rib, n, RouteOn(routesToAdd, f), f in routesToRemove, d, f, old(At(d, f)))
      {
        assert children[..|children|] == children;
        WalkAllChildren(rib, n, children, RouteOn(routesToAdd, f), f in routesToRemove, d, f, old(At(d, f)));
      }
    }

    // ------------------------------------------------------- sets of routes

    /** `addInheritedRoutes` for an entry: faces of its own are skipped. */
    method AddInheritedRoutes(n: Name, e: RibEntry, routes: RouteSet)
      requires Valid() && KeyedByFace(routes)
      modifies this
      ensures Valid() && batchFaceId == old(batchFaceId)
      ensures forall d, f :: At(d, f) ==
                if d == n && f in routes && !e.HasFaceId(f) then AddInherited(old(At(d, f)), routes[f].cost)
                else old(At(d, f))
    {
      var todo := routes.Keys;
      while todo != {}
        invariant Valid() && batchFaceId == old(batchFaceId) && todo <= routes.Keys
        invariant forall d, f :: At(d, f) ==
                    if d == n && f in routes && f !in todo && !e.HasFaceId(f)
                    then AddInherited(old(At(d, f)), routes[f].cost) else old(At(d, f))
        decreases |todo|
      {
        var f :| f in todo;
        if !e.HasFaceId(f) {
          GiveInherited(n, routes[f]);
        }
        todo := todo - {f};
      }
    }

    /** `addInheritedRoutes` for a name: the face of the route being added is skipped. */
    method AddInheritedRoutesExcept(n: Name, routes: RouteSet, ignore: Route)
      requires Valid() && KeyedByFace(routes)
      modifies this
      ensures Valid() && batchFaceId == old(batchFaceId)
      ensures forall d, f :: At(d, f) ==
                if d == n && f in routes && f != ignore.faceId then AddInherited(old(At(d, f)), routes[f].cost)
                else old(At(d, f))
    {
      var todo := routes.Keys;
      while todo != {}
        invariant Valid() && batchFaceId == old(batchFaceId) && todo <= routes.Keys
        invariant forall d, f :: At(d, f) ==
                    if d == n && f in routes && f !in todo && f != ignore.faceId
                    then AddInherited(old(At(d, f)), routes[f].cost) else old(At(d, f))
        decreases |todo|
      {
        var f :| f in todo;
        if f != ignore.faceId {
          GiveInherited(n, routes[f]);
        }
        todo := todo - {f};
      }
    }

    /** `removeInheritedRoutes` */
    method RemoveInheritedRoutes(n: Name, e: RibEntry, routes: RouteSet)
      requires Valid() && KeyedByFace(routes)
      modifies this
      ensures Valid() && batchFaceId == old(batchFaceId)
      ensures forall d, f :: At(d, f) ==
                if d == n && f in routes && e.HasInherited(f) then RemoveInherited(old(At(d, f))) else old(At(d, f))
    {
      var todo := routes.Keys;
      while todo != {}
        invariant Valid() && batchFaceId == old(batchFaceId) && todo <= routes.Keys
        invariant forall d, f :: At(d, f) ==
                    if d == n && f in routes && f !in todo && e.HasInherited(f)
                    then RemoveInherited(old(At(d, f))) else old(At(d, f))
        decreases |todo|
      {
        var f :| f in todo;
        if e.HasInherited(f) {
          TakeInherited(n, routes[f]);
        }
        todo := todo - {f};
      }
    }

    // ------------------------------------------------------- one RIB change

    /** `createFibUpdatesForNewRibEntry` */
    method CreateFibUpdatesForNewRibEntry(rib: RibTable, n: Name, r: Route, children: seq<Name>)
      requires Valid() && n !in rib && Linked(rib) && CaptureExact(rib) && ChildrenOf(rib, n, children)
      requires forall d, f :: At(d, f) == NOTHING
      modifies this
      ensures Valid() && batchFaceId == old(batchFaceId)
      ensures forall d, f :: At(d, f) == NewEntryKey(rib, n, r, d, f)
    {
      AddFibUpdate(AddUpdate(n, r.faceId, r.cost));
      var parent := FindParent(rib, n);
      var ancestorRoutes := GetAncestorRoutes(rib, n, parent);
      AncestorsKeyed(rib, n, ancestorRoutes);
      if !r.childInherit && !r.capture {
        AddInheritedRoutesExcept(n, ancestorRoutes, r);
      } else if r.childInherit && r.capture {
        ModifyChildren(rib, n, children, map[r.faceId := r], ancestorRoutes);
      } else if r.childInherit {
        AddInheritedRoutesExcept(n, ancestorRoutes, r);
        ModifyChildren(rib, n, children, ancestorRoutes[r.faceId := r], map[]);
      } else {
        ModifyChildren(rib, n, children, map[], ancestorRoutes);
      }
      forall d, f ensures At(d, f) == NewEntryKey(rib, n, r, d, f) {
        NewEntryKeySteps(rib, n, r, d, f, RouteOn(ancestorRoutes, f), At(d, f));
      }
    }

    /** The new route, if it hands down and no cheaper route on its face does. */
    static method RouteForChildren(e: RibEntry, r: Route) returns (routesToAdd: RouteSet)
      ensures KeyedByFace(routesToAdd)
      ensures forall f :: RouteOn(routesToAdd, f) == NewRouteAdds(e, r, f)
    {
      var prevRoute := LowestCostRoute(e.routes, r.faceId, true);
      routesToAdd := map[];
      if r.childInherit && (prevRoute == None || r.cost <= prevRoute.value.cost) {
        routesToAdd := map[r.faceId := r];
      }
    }

    /** The update of the entry itself, unless a cheaper route on the face exists. */
    method AddIfNotWorse(n: Name, e: RibEntry, r: Route)
      requires Valid()
      modifies this
      ensures Valid() && batchFaceId == old(batchFaceId)
      ensures forall d, f :: At(d, f) ==
                if d == n && f == r.faceId && NotWorse(r, e.routes, false)
                then old(At(d, f)).(op := Add(r.cost)) else old(At(d, f))
    {
      var other := LowestCostRoute(e.routes, r.faceId, false);
      if other == None || r.cost <= other.value.cost {
        AddFibUpdate(AddUpdate(n, r.faceId, r.cost));
      }
    }

    /** `createFibUpdatesForNewRoute` */
    method CreateFibUpdatesForNewRoute(rib: RibTable, n: Name, e: RibEntry, r: Route, captureWasTurnedOn: bool)
      requires Valid() && Linked(rib) && CaptureExact(rib)
      requires e.parent == Parent(rib, n) && ChildrenOf(rib, n, e.children)
      modifies this
      ensures Valid() && batchFaceId == old(batchFaceId)
      ensures forall d, f :: At(d, f) == NewRouteKey(rib, n, e, r, captureWasTurnedOn, d, f, old(At(d, f)))
    {
      var routesToAdd := RouteForChildren(e, r);
      var routesToRemove: RouteSet := map[];
      if captureWasTurnedOn {
        routesToRemove := GetAncestorRoutes(rib, n, e.parent);
        AncestorsKeyed(rib, n, routesToRemove);
        RemoveInheritedRoutes(n, e, routesToRemove);
      }
      label Removed:
      ModifyChildren(rib, n, e.children, routesToAdd, routesToRemove);
      label Walked:
      AddIfNotWorse(n, e, r);
      forall d, f ensures At(d, f) == NewRouteKey(rib, n, e, r, captureWasTurnedOn, d, f, old(At(d, f))) {
        NewRouteKeySteps(rib, n, e, r, captureWasTurnedOn, d, f, RouteOn(routesToAdd, f), f in routesToRemove,
                         old(At(d, f)), old@Removed(At(d, f)), old@Walked(At(d, f)), At(d, f));
      }
    }

    /** The update of the entry itself when the cost of a route changes; false if the
        source would follow a null pointer here. */
    method ChangeOwnCost(n: Name, e: RibEntry, r: Route, x: Route) returns (ok: bool)
      requires Valid() && HasRouteOn(e.routes, r.faceId, false)
      modifies this
      ensures Valid() && batchFaceId == old(batchFaceId)
      ensures ok <==> !ReadsMissingRoute(e, r, x)
      ensures ok ==> forall d, f :: At(d, f) ==
                       if d == n && f == r.faceId then old(At(d, f)).(op := ReplacedOp(e, r, x, old(At(d, f)).op))
                       else old(At(d, f))
    {
      ok := true;
      if r.cost != x.cost {
        var low := LowestCostRoute(e.routes, r.faceId, false);
        if r.cost <= low.value.cost {
          AddFibUpdate(AddUpdate(n, r.faceId, r.cost));
        } else if x.cost < low.value.cost {
          var prev := LowestCostRoute(e.routes, r.faceId, true);
          if prev == None {
            return false;
          }
          AddFibUpdate(AddUpdate(n, prev.value.faceId, prev.value.cost));
        }
      }
    }

    /** What cost and child-inherit flag change for the subtree. */
    method ChangeHandedDown(rib: RibTable, n: Name, e: RibEntry, r: Route, x: Route, ancestorRoutes: RouteSet)
      requires Valid() && Linked(rib) && CaptureExact(rib) && ChildrenOf(rib, n, e.children)
      requires IsAncestorRoutes(rib, n, ancestorRoutes) && KeyedByFace(ancestorRoutes)
      modifies this
      ensures Valid() && batchFaceId == old(batchFaceId)
      ensures forall d, f :: At(d, f) ==
                WalkBelow(rib, n, ReplacedAdds(e, r, x, AncestorRoute(rib, n, f), f), ReplacedRemoves(r, x, f),
                          d, f, old(At(d, f)))
    {
      var prev := LowestCostRoute(e.routes, r.faceId, true);
      var routesToAdd: RouteSet := map[];
      var routesToRemove: RouteSet := map[];
      if r.childInherit {
        if (!x.childInherit || (SameFlags(r, x) && r.cost != x.cost)) && (prev == None || r.cost <= prev.value.cost) {
          routesToAdd := map[r.faceId := r];
        }
      } else if x.childInherit {
        routesToRemove := map[r.faceId := r];
        if prev != None {
          routesToAdd := map[r.faceId := prev.value];
        } else if r.faceId in ancestorRoutes {
          routesToAdd := map[r.faceId := ancestorRoutes[r.faceId]];
        }
      }
      ModifyChildren(rib, n, e.children, routesToAdd, routesToRemove);
      forall d, f ensures At(d, f) == WalkBelow(rib, n, ReplacedAdds(e, r, x, AncestorRoute(rib, n, f), f),
                                                ReplacedRemoves(r, x, f), d, f, old(At(d, f)))
      {
        assert RouteOn(ancestorRoutes, f) == AncestorRoute(rib, n, f);
        assert RouteOn(routesToAdd, f) == ReplacedAdds(e, r, x, AncestorRoute(rib, n, f), f);
        assert f in routesToRemove <==> ReplacedRemoves(r, x, f);
      }
    }

    /** What a change of the capture flag does to the entry and its subtree. */
    method ChangeCapture(rib: RibTable, n: Name, e: RibEntry, r: Route, x: Route, ancestorRoutes: RouteSet)
      requires Valid() && Linked(rib) && CaptureExact(rib) && ChildrenOf(rib, n, e.children)
      requires IsAncestorRoutes(rib, n, ancestorRoutes) && KeyedByFace(ancestorRoutes)
      modifies this
      ensures Valid() && batchFaceId == old(batchFaceId)
      ensures forall d, f :: At(d, f) == CaptureKey(rib, n, e, r, x, d, f, old(At(d, f)))
    {
      if CaptureTurnedOn(x, r) {
        RemoveInheritedRoutes(n, e, ancestorRoutes);
        ModifyChildren(rib, n, e.children, map[], ancestorRoutes);
      } else if CaptureTurnedOff(x, r) {
        AddInheritedRoutes(n, e, ancestorRoutes);
        ModifyChildren(rib, n, e.children, ancestorRoutes, map[]);
      }
      forall d, f ensures At(d, f) == CaptureKey(rib, n, e, r, x, d, f, old(At(d, f))) {
        assert RouteOn(ancestorRoutes, f) == AncestorRoute(rib, n, f);
      }
    }

    /** `createFibUpdatesForUpdatedRoute`; `e` is the entry with `x` replaced by `r`. */
    method CreateFibUpdatesForUpdatedRoute(rib: RibTable, n: Name, e: RibEntry, r: Route, x: Route) returns (ok: bool)
      requires Valid() && Linked(rib) && CaptureExact(rib)
      requires e.parent == Parent(rib, n) && ChildrenOf(rib, n, e.children) && r in e.routes
      modifies this
      ensures Valid() && batchFaceId == old(batchFaceId)
      ensures ok <==> !ReadsMissingRoute(e, r, x)
      ensures ok ==> forall d, f :: At(d, f) == ReplacedRouteKey(rib, n, e, r, x, d, f, old(At(d, f)))
    {
      assert Matches(r, r.faceId, false);
      if SameFlags(r, x) && r.cost == x.cost {
        forall d, f ensures At(d, f) == ReplacedRouteKey(rib, n, e, r, x, d, f, old(At(d, f))) {
          ReplacedKeySteps(rib, n, e, r, x, d, f, At(d, f), At(d, f), At(d, f), At(d, f));
        }
        return true;
      }
      ok := ChangeOwnCost(n, e, r, x);
      if !ok {
        return;
      }
      label Cost:
      var ancestorRoutes := GetAncestorRoutes(rib, n, e.parent);
      AncestorsKeyed(rib, n, ancestorRoutes);
      ChangeHandedDown(rib, n, e, r, x, ancestorRoutes);
      label Walked:
      ChangeCapture(rib, n, e, r, x, ancestorRoutes);
      forall d, f ensures At(d, f) == ReplacedRouteKey(rib, n, e, r, x, d, f, old(At(d, f))) {
        ReplacedKeySteps(rib, n, e, r, x, d, f, old(At(d, f)), old@Cost(At(d, f)), old@Walked(At(d, f)), At(d, f));
      }
    }

    /** `createFibUpdatesForErasedRoute`; `e` is the entry without the route. */
    method CreateFibUpdatesForErasedRoute(rib: RibTable, n: Name, e: RibEntry, x: Route, captureWasTurnedOff: bool)
      requires Valid() && Linked(rib) && CaptureExact(rib)
      requires e.parent == Parent(rib, n) && ChildrenOf(rib, n, e.children)
      modifies this
      ensures Valid() && batchFaceId == old(batchFaceId)
      ensures forall d, f :: At(d, f) == ErasedRouteKey(rib, n, e, x, captureWasTurnedOff, d, f, old(At(d, f)))
    {
      AddFibUpdate(RemoveUpdate(n, x.faceId));
      var ancestorRoutes := GetAncestorRoutes(rib, n, e.parent);
      AncestorsKeyed(rib, n, ancestorRoutes);
      label Removed:
      var routesToAdd: RouteSet := map[];
      var routesToRemove: RouteSet := map[];
      if x.childInherit && x.capture {
        routesToRemove := map[x.faceId := x];
        if captureWasTurnedOff {
          routesToAdd := ancestorRoutes;
          AddInheritedRoutes(n, e, routesToAdd);
        }
      } else if x.childInherit {
        if !e.HasCapture() {
          routesToAdd := ancestorRoutes;
        }
        routesToRemove := map[x.faceId := x];
      } else if x.capture {
        if captureWasTurnedOff {
          routesToAdd := ancestorRoutes;
          AddInheritedRoutes(n, e, routesToAdd);
        }
      }
      label Offered:
      if x.childInherit || x.capture {
        ModifyChildren(rib, n, e.children, routesToAdd, routesToRemove);
      }
      label Walked:
      if !e.HasCapture() && e.routes != [] && x.faceId in ancestorRoutes {
        GiveInherited(n, ancestorRoutes[x.faceId]);
      }
      forall d, f ensures At(d, f) == ErasedRouteKey(rib, n, e, x, captureWasTurnedOff, d, f, old(At(d, f))) {
        assert RouteOn(ancestorRoutes, f) == AncestorRoute(rib, n, f);
        ErasedKeySteps(rib, n, e, x, captureWasTurnedOff, d, f, old(At(d, f)),
                       old@Offered(At(d, f)), old@Walked(At(d, f)), At(d, f));
      }
    }

    /** `createFibUpdatesForErasedRibEntry` */
    method CreateFibUpdatesForErasedRibEntry(n: Name, e: RibEntry)
      requires Valid()
      modifies this
      ensures Valid() && batchFaceId == old(batchFaceId)
      ensures forall d, f :: At(d, f) ==
                if d == n && e.HasInherited(f) then old(At(d, f)).(op := Remove) else old(At(d, f))
    {
      for i := 0 to |e.inherited|
        invariant Valid() && batchFaceId == old(batchFaceId)
        invariant forall d, f :: At(d, f) ==
                    if d == n && HasRouteOn(e.inherited[..i], f, false) then old(At(d, f)).(op := Remove)
                    else old(At(d, f))
      {
        assert e.inherited[..i + 1] == e.inherited[..i] + [e.inherited[i]];
        forall f {
          AppendedFace(e.inherited[..i], e.inherited[i], f);
        }
        AddFibUpdate(RemoveUpdate(n, e.inherited[i].faceId));
      }
      assert e.inherited[..|e.inherited|] == e.inherited;
    }

    // ------------------------------------------------------------ entry points

    /** `computeUpdatesForRegistration`; false if the source would break on the way. */
    method ComputeUpdatesForRegistration(rib: RibTable, n: Name, r: Route) returns (ok: bool)
      requires Valid() && Linked(rib) && CaptureExact(rib)
      requires forall d, f :: At(d, f) == NOTHING
      modifies this
      ensures Valid() && batchFaceId == old(batchFaceId)
      ensures ok <==> !RegistrationBreaks(rib, n, r)
      ensures ok ==> forall d, f :: At(d, f) == RegisterKey(rib, n, r, d, f)
    {
      ok := true;
      if n in rib {
        var e := rib[n];
        assert ChildrenOf(rib, n, rib[n].children);
        var i := FindRoute(e.routes, r);
        if i == |e.routes| {
          var willCaptureBeTurnedOn := !e.HasCapture() && r.capture;
          CreateFibUpdatesForNewRoute(rib, n, e, r, willCaptureBeTurnedOn);
        } else {
          var entryCopy := ReplaceRoute(e, r);
          assert entryCopy.routes[i] == r;
          ok := CreateFibUpdatesForUpdatedRoute(rib, n, entryCopy, r, e.routes[i]);
        }
      } else {
        var parent := FindParent(rib, n);
        var children := FindFutureChildren(rib, n, parent);
        CreateFibUpdatesForNewRibEntry(rib, n, r, children);
      }
    }

    /** `computeUpdatesForUnregistration` */
    method ComputeUpdatesForUnregistration(rib: RibTable, n: Name, r: Route) returns (next: Option<Route>)
      requires Valid() && Linked(rib) && CaptureExact(rib)
      requires forall d, f :: At(d, f) == NOTHING
      modifies this
      ensures Valid() && batchFaceId == old(batchFaceId)
      ensures forall d, f :: At(d, f) == UnregisterIfFound(rib, n, r, next, d, f)
      ensures if n in rib then IsSecond(rib[n].routes, r.faceId, next) else next == None
    {
      next := None;
      if n in rib {
        var e := rib[n];
        next := SecondLowestCostRoute(e.routes, r.faceId);
        var i := FindRoute(e.routes, r);
        if i < |e.routes| {
          FindRouteOfFound(e.routes, r);
          assert ChildrenOf(rib, n, rib[n].children);
          UnregisterExisting(rib, n, e, e.routes[i], next);
        }
      }
    }

    method UnregisterExisting(rib: RibTable, n: Name, e: RibEntry, existing: Route, next: Option<Route>)
      requires Valid() && Linked(rib) && CaptureExact(rib)
      requires e.parent == Parent(rib, n) && ChildrenOf(rib, n, e.children)
      requires forall d, f :: At(d, f) == NOTHING
      modifies this
      ensures Valid() && batchFaceId == old(batchFaceId)
      ensures forall d, f :: At(d, f) == UnregisterKey(rib, n, e, existing, next, d, f)
    {
      var temp := EraseRoute(e, existing);
      var captureWasTurnedOff := e.HasCapture() && !temp.HasCapture();
      CreateFibUpdatesForErasedRoute(rib, n, temp, existing, captureWasTurnedOff);
      if next.Some? {
        CreateFibUpdatesForNewRoute(rib, n, temp, next.value, false);
      }
      if |e.routes| == 1 {
        CreateFibUpdatesForErasedRibEntry(n, e);
      }
    }

    /** `computeUpdates` for a batch, which holds exactly one update. When the face has
        been destroyed the updates of the batch face are dropped again. */
    method ComputeUpdates(rib: RibTable, update: RibUpdate) returns (ok: bool, next: Option<Route>)
      requires Valid() && Linked(rib) && CaptureExact(rib) && batchFaceId == update.route.faceId
      requires forall d, f :: At(d, f) == NOTHING
      modifies this
      ensures Valid() && batchFaceId == old(batchFaceId)
      ensures ok <==> !(update.action == Register && RegistrationBreaks(rib, update.name, update.route))
      ensures ok && update.action == Register ==>
                forall d, f :: At(d, f) == RegisterKey(rib, update.name, update.route, d, f)
      ensures update.action != Register ==>
                && (if update.name in rib then IsSecond(rib[update.name].routes, update.route.faceId, next)
                    else next == None)
                && forall d, f :: At(d, f) ==
                     var k := UnregisterIfFound(rib, update.name, update.route, next, d, f);
                     if update.action == RemoveFace && f == batchFaceId then k.(op := Keep) else k
      ensures update.action == RemoveFace ==> updatesForBatchFaceId == []
    {
      ok, next := true, None;
      match update.action
      case Register =>
        ok := ComputeUpdatesForRegistration(rib, update.name, update.route);
      case Unregister =>
        next := ComputeUpdatesForUnregistration(rib, update.name, update.route);
      case RemoveFace =>
        next := ComputeUpdatesForUnregistration(rib, update.name, update.route);
        DropBatchUpdates();
    }

    method DropBatchUpdates()
      requires Valid()
      modifies this`updatesForBatchFaceId, this`pending
      ensures Valid() && updatesForBatchFaceId == []
      ensures forall d, f :: At(d, f) == if f == batchFaceId then old(At(d, f)).(op := Keep) else old(At(d, f))
    {
      updatesForBatchFaceId := [];
      pending := imap p | p in pending :: if p.1 == batchFaceId then pending[p].(op := Keep) else pending[p];
      forall d, f ensures At(d, f) == Listed(d, f) {
        assert old(At(d, f)) == old(Listed(d, f));
      }
    }
  }
}
