/** Closed forms of what `FibUpdater` leaves pending for one (name, face) pair. */
module FibDeltas {
  import opened Options
  import opened RibEntries
  import opened RibTrees

  /** The FIB update pending for a (name, face) pair, if any. */
  datatype Op = Keep | Add(cost: nat) | Remove

  function Effect(before: Option<nat>, op: Op): Option<nat> {
    match op
    case Keep => before
    case Add(cost) => Some(cost)
    case Remove => None
  }

  /** Everything pending for a (name, face) pair: the FIB update, the number of records
      that will be added to and removed from the entry's inherited-route list, and how
      many the list must hold at the start for every removal to find one at its turn. */
  datatype KeyState = KeyState(op: Op, regs: nat, unregs: nat, need: nat)

  const NOTHING := KeyState(Keep, 0, 0, 0)

  function AddInherited(k: KeyState, cost: nat): KeyState { k.(op := Add(cost), regs := k.regs + 1) }

  function RemoveInherited(k: KeyState): KeyState {
    k.(op := Remove, unregs := k.unregs + 1, need := NeedNext(k.regs, k.unregs, k.need))
  }

  /** What one more removal needs after some additions and removals. */
  function NeedNext(regs: nat, unregs: nat, need: nat): nat {
    if unregs + 1 > regs + need then unregs + 1 - regs else need
  }

  // ------------------------------------------------------------- subtree walk

  predicate StopsWalk(e: RibEntry, f: FaceId) {
    HasRouteOn(e.routes, f, true) || e.HasCapture()
  }

  /** No entry below `n` down to and including `d` stops the walk for the face. */
  ghost predicate PathClear(rib: RibTable, n: Name, d: Name, f: FaceId) {
    forall p :: p in rib && n < p && p <= d ==> !StopsWalk(rib[p], f)
  }

  /** The visit of one entry that does not stop the face. */
  function Visit(e: RibEntry, add: Option<Route>, remove: bool, f: FaceId, k: KeyState): KeyState {
    var k1 := if remove && e.HasInherited(f) then RemoveInherited(k) else k;
    if add.Some? && !e.HasFaceId(f) then AddInherited(k1, add.value.cost) else k1
  }

  /** The walk over everything below `n`. */
  ghost function WalkBelow(rib: RibTable, n: Name, add: Option<Route>, remove: bool,
                           d: Name, f: FaceId, k: KeyState): KeyState
  {
    if d in rib && n < d && PathClear(rib, n, d, f) then Visit(rib[d], add, remove, f, k) else k
  }

  // ------------------------------------------------------------- registrations

  /** A route `r` registered under the new name `n`. */
  ghost function NewEntryKey(rib: RibTable, n: Name, r: Route, d: Name, f: FaceId): KeyState {
    var anc := AncestorRoute(rib, n, f);
    if d == n then
      if f == r.faceId then NOTHING.(op := Add(r.cost))
      else if !r.capture && anc.Some? then AddInherited(NOTHING, anc.value.cost)
      else NOTHING
    else
      WalkBelow(rib, n, NewEntryAdds(r, anc, f), r.capture && anc.Some?, d, f, NOTHING)
  }

  function NewEntryAdds(r: Route, anc: Option<Route>, f: FaceId): Option<Route> {
    if !r.childInherit then None
    else if f == r.faceId then Some(r)
    else if r.capture then None
    else anc
  }

  /** A route `r` with a new (face, origin) added to the entry `e` of name `n`. */
  ghost function NewRouteKey(rib: RibTable, n: Name, e: RibEntry, r: Route, captureOn: bool,
                             d: Name, f: FaceId, k: KeyState): KeyState
  {
    var blocked := captureOn && AncestorRoute(rib, n, f).Some?;
    if d == n then
      var k1 := if blocked && e.HasInherited(f) then RemoveInherited(k) else k;
      if f == r.faceId && NotWorse(r, e.routes, false) then k1.(op := Add(r.cost)) else k1
    else
      WalkBelow(rib, n, NewRouteAdds(e, r, f), blocked, d, f, k)
  }

  /** No route already on the face of `r` is cheaper. */
  predicate NotWorse(r: Route, routes: seq<Route>, inheritOnly: bool) {
    var c := Cheapest(routes, r.faceId, inheritOnly);
    c.None? || r.cost <= c.value.cost
  }

  function NewRouteAdds(e: RibEntry, r: Route, f: FaceId): Option<Route> {
    if r.childInherit && f == r.faceId && NotWorse(r, e.routes, true) then Some(r) else None
  }

  // -------------------------------------------------------------- replacements

  predicate SameFlags(a: Route, b: Route) { a.childInherit == b.childInherit && a.capture == b.capture }

  predicate CaptureTurnedOn(x: Route, r: Route) { !x.capture && r.capture }

  predicate CaptureTurnedOff(x: Route, r: Route) { x.capture && !r.capture }

  /** The update of the entry `e` itself, in which `r` has replaced `x`. */
  function ReplacedOp(e: RibEntry, r: Route, x: Route, op: Op): Op {
    var low := CheapestCost(e.routes, r.faceId, false);
    var prev := CheapestCost(e.routes, r.faceId, true);
    if r.cost == x.cost || low.None? then op
    else if r.cost <= low.value then Add(r.cost)
    else if x.cost < low.value && prev.Some? then Add(prev.value)
    else op
  }

  /** The source reads the cheapest child-inherit route of the face, but there is none. */
  predicate ReadsMissingRoute(e: RibEntry, r: Route, x: Route) {
    var low := CheapestCost(e.routes, r.faceId, false);
    low.Some? && x.cost < low.value < r.cost && !HasRouteOn(e.routes, r.faceId, true)
  }

  /** What the subtree is given on the face because of cost and child-inherit flag. */
  function ReplacedAdds(e: RibEntry, r: Route, x: Route, anc: Option<Route>, f: FaceId): Option<Route> {
    if f != r.faceId then None
    else if r.childInherit then
      if (!x.childInherit || (SameFlags(r, x) && r.cost != x.cost)) && NotWorse(r, e.routes, true) then Some(r)
          else None
    else if x.childInherit then
      if HasRouteOn(e.routes, f, true) then Cheapest(e.routes, f, true) else anc
    else None
  }

  predicate ReplacedRemoves(r: Route, x: Route, f: FaceId) { x.childInherit && !r.childInherit && f == r.faceId }

  /** The route `x` of the entry of name `n` replaced by `r`; `e` is the entry after that. */
  ghost function ReplacedRouteKey(rib: RibTable, n: Name, e: RibEntry, r: Route, x: Route,
                                  d: Name, f: FaceId, k: KeyState): KeyState
  {
    var anc := AncestorRoute(rib, n, f);
    if d == n then
      var k1 := if f == r.faceId then k.(op := ReplacedOp(e, r, x, k.op)) else k;
      if CaptureTurnedOn(x, r) && anc.Some? && e.HasInherited(f) then RemoveInherited(k1)
      else if CaptureTurnedOff(x, r) && anc.Some? && !e.HasFaceId(f) then AddInherited(k1, anc.value.cost)
      else k1
    else
      var k1 := WalkBelow(rib, n, ReplacedAdds(e, r, x, anc, f), ReplacedRemoves(r, x, f), d, f, k);
      if CaptureTurnedOn(x, r) then WalkBelow(rib, n, None, anc.Some?, d, f, k1)
      else if CaptureTurnedOff(x, r) then WalkBelow(rib, n, anc, false, d, f, k1)
      else k1
  }

  // ----------------------------------------------------------- unregistrations

  /** The route `x` erased from the entry of name `n`; `rest` is what remains of
      that entry. */
  ghost function ErasedRouteKey(rib: RibTable, n: Name, rest: RibEntry, x: Route, captureOff: bool,
                                d: Name, f: FaceId, k: KeyState): KeyState
  {
    var anc := AncestorRoute(rib, n, f);
    if d == n then
      var k1 := if f == x.faceId then k.(op := Remove) else k;
      var k2 := if x.capture && captureOff && anc.Some? && !rest.HasFaceId(f)
                then AddInherited(k1, anc.value.cost) else k1;
      if !rest.HasCapture() && rest.routes != [] && f == x.faceId && anc.Some?
      then AddInherited(k2, anc.value.cost) else k2
    else
      WalkBelow(rib, n, if ErasedRouteUncovers(rest, x, captureOff) then anc else None,
                x.childInherit && f == x.faceId, d, f, k)
  }

  /** The subtree is given the routes of the ancestors again. */
  predicate ErasedRouteUncovers(rest: RibEntry, x: Route, captureOff: bool) {
    if x.capture then captureOff else x.childInherit && !rest.HasCapture()
  }

  /** The whole unregistration of `x` from the entry `e`; `next` is the second
      cheapest route `e` has on the same face, if any. */
  ghost function UnregisterKey(rib: RibTable, n: Name, e: RibEntry, x: Route, next: Option<Route>,
                               d: Name, f: FaceId): KeyState
  {
    var rest := EraseRoute(e, x);
    var k := ErasedRouteKey(rib, n, rest, x, e.HasCapture() && !rest.HasCapture(), d, f, NOTHING);
    var k1 := if next.Some? then NewRouteKey(rib, n, rest, next.value, false, d, f, k) else k;
    if d == n && |e.routes| == 1 && e.HasInherited(f) then k1.(op := Remove) else k1
  }
}
