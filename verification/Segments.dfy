/** Publishing an octet stream as numbered segments, and fetching it back. */
module Segments {
  import opened Options

  type Byte = bv8

  /** A segment: its number, its content and the FinalBlockId, if present. */
  datatype Data = Data(segmentNo: nat, content: seq<Byte>, finalBlockId: Option<nat>)

  /** The segments of `raw`, numbered from `no`. */
  function Split(raw: seq<Byte>, size: nat, no: nat): (ds: seq<Data>)
    requires size > 0
    ensures |ds| > 0
    decreases |raw|
  {
    if |raw| <= size then [Data(no, raw, Some(no))]
    else [Data(no, raw[..size], None)] + Split(raw[size..], size, no + 1)
  }

  /** The segment from `begin` comes first in the segmentation of the rest. */
  lemma NextSegment(raw: seq<Byte>, begin: nat, end: nat, size: nat, no: nat, ds: seq<Data>)
    requires size > 0 && begin <= end <= |raw| && end == if begin + size > |raw| then |raw| else begin + size
    ensures var d := Data(no, raw[begin..end], if end >= |raw| then Some(no) else None);
            ds + Split(raw[begin..], size, no) ==
            if end < |raw| then ds + [d] + Split(raw[end..], size, no + 1) else ds + [d]
  {
    if end < |raw| {
      assert raw[begin..][..size] == raw[begin..end] && raw[begin..][size..] == raw[end..];
    } else {
      assert raw[begin..end] == raw[begin..];
    }
  }

  /** `SegmentPublisher::publish` */
  method Publish(raw: seq<Byte>, size: nat) returns (ds: seq<Data>)
    requires size > 0
    ensures ds == Split(raw, size, 0)
  {
    ds := [];
    var begin, no, more := 0, 0, true;
    while more
      invariant begin <= |raw|
      invariant more ==> begin < |raw| || begin == 0
      invariant if more then ds + Split(raw[begin..], size, no) == Split(raw, size, 0) else ds == Split(raw, size, 0)
      decreases more, |raw| - begin
    {
      var end := begin + size;
      if end > |raw| {
        end := |raw|;
      }
      var content := raw[begin..end];
      NextSegment(raw, begin, end, size, no, ds);
      begin := end;
      ds := ds + [Data(no, content, if begin >= |raw| then Some(no) else None)];
      no := no + 1;
      more := begin < |raw|;
    }
  }

  /** The segments held by the network, by number. */
  type Store = map<nat, Data>

  function NumbersFrom(store: Store, i: nat): set<nat> { set j | j in store && j >= i }

  ghost predicate Numbered(store: Store) {
    forall i :: i in store ==> store[i].segmentNo == i
  }

  /** Fetching from segment `i`: the collected octets and the last segment asked for,
      or nothing when a segment cannot be had. */
  ghost function FetchFrom(store: Store, i: nat, buffer: seq<Byte>): Option<(seq<Byte>, nat)>
    requires Numbered(store)
    decreases NumbersFrom(store, i)
  {
    if i !in store then None
    else
      var d := store[i];
      assert i in NumbersFrom(store, i) && i !in NumbersFrom(store, i + 1) &&
          NumbersFrom(store, i + 1) <= NumbersFrom(store, i);
      if d.finalBlockId.None? || d.finalBlockId.value > d.segmentNo
      then FetchFrom(store, d.segmentNo + 1, buffer + d.content)
      else Some((buffer + d.content, i))
  }

  /** `RibManager::fetchSegments`, its chain of callbacks unrolled into a loop. */
  method Fetch(store: Store) returns (result: Option<(seq<Byte>, nat)>)
    requires Numbered(store)
    ensures result == FetchFrom(store, 0, [])
  {
    var buffer: seq<Byte> := [];
    var i := 0;
    while i in store
      invariant FetchFrom(store, i, buffer) == FetchFrom(store, 0, [])
      decreases NumbersFrom(store, i)
    {
      var d := store[i];
      buffer := buffer + d.content;
      var currentSegment := d.segmentNo;
      if d.finalBlockId.None? || d.finalBlockId.value > currentSegment {
        assert i in NumbersFrom(store, i) && i !in NumbersFrom(store, i + 1) &&
            NumbersFrom(store, i + 1) <= NumbersFrom(store, i);
        i := currentSegment + 1;
      } else {
        return Some((buffer, i));
      }
    }
    return None;
  }

  /** The store holding just the given segments. */
  function StoreOf(ds: seq<Data>): Store { map i: nat | i < |ds| :: ds[i] }

  /** Numbers are contiguous, only the last segment is marked final, and there are
      max(1, ceil(n / size)) of them. */
  lemma {:induction false} SplitShape(raw: seq<Byte>, size: nat, no: nat)
    requires size > 0
    ensures var ds := Split(raw, size, no);
            && |ds| == (if |raw| == 0 then 1 else (|raw| + size - 1) / size)
            && (forall i :: 0 <= i < |ds| ==> ds[i].segmentNo == no + i)
            && (forall i :: 0 <= i < |ds| ==> ds[i].finalBlockId == if i == |ds| - 1 then Some(no + i) else None)
            && (forall i :: 0 <= i < |ds| - 1 ==> |ds[i].content| == size)
            && |ds[|ds| - 1].content| <= size
    decreases |raw|
  {
    if |raw| <= size {
      if |raw| > 0 {
        CeilingOne(|raw|, size);
      }
    } else {
      SplitShape(raw[size..], size, no + 1);
      CeilingStep(|raw|, size);
      var ds, rest := Split(raw, size, no), Split(raw[size..], size, no + 1);
      assert forall i :: 1 <= i < |ds| ==> ds[i] == rest[i - 1];
    }
  }

  lemma CeilingOne(n: nat, size: nat)
    requires 0 < n <= size
    ensures (n + size - 1) / size == 1
  {
  }

  lemma CeilingStep(n: nat, size: nat)
    requires 0 < size < n
    ensures (n + size - 1) / size == 1 + (n - size + size - 1) / size
  {
    var q, r := (n - 1) / size, (n - 1) % size;
    assert n - 1 == q * size + r;
    assert n + size - 1 == (q + 1) * size + r by { assert (q + 1) * size == q * size + size; }
    QuotientUnique(n + size - 1, size, q + 1, r);
  }

  lemma QuotientUnique(x: nat, d: nat, q: nat, r: nat)
    requires 0 <= r < d && x == q * d + r
    ensures x / d == q
  {
    var q' := x / d;
    assert x == q' * d + x % d;
    if q' < q {
      NextMultiple(q', q, d);
    } else if q' > q {
      NextMultiple(q, q', d);
    }
  }

  lemma NextMultiple(a: nat, b: nat, d: nat)
    requires a < b
    ensures a * d + d <= b * d
  {
    assert b * d == a * d + (b - a) * d;
    assert (b - a) * d == (b - a - 1) * d + d;
  }

  /** Fetching goes on after a segment without a FinalBlockId, or with a later one. */
  predicate GoesOn(d: Data) { d.finalBlockId.None? || d.finalBlockId.value > d.segmentNo }

  /** From `no` on the store has segments with the content of `ds`, and fetching ends at the last. */
  ghost predicate Leads(store: Store, ds: seq<Data>, no: nat) {
    forall i :: 0 <= i < |ds| ==> LeadsAt(store, no + i, ds[i].content, i < |ds| - 1)
  }

  predicate LeadsAt(store: Store, no: nat, content: seq<Byte>, more: bool) {
    no in store && store[no].content == content && (GoesOn(store[no]) <==> more)
  }

  function Joined(ds: seq<Data>): seq<Byte> { if ds == [] then [] else ds[0].content + Joined(ds[1..]) }

  lemma {:induction false} FetchLeads(store: Store, ds: seq<Data>, no: nat, buffer: seq<Byte>)
    requires Numbered(store) && ds != [] && Leads(store, ds, no)
    ensures FetchFrom(store, no, buffer) == Some((buffer + Joined(ds), no + |ds| - 1))
    decreases |ds|
  {
    assert LeadsAt(store, no + 0, ds[0].content, 0 < |ds| - 1);
    if |ds| > 1 {
      forall i | 0 <= i < |ds[1..]| ensures LeadsAt(store, no + 1 + i, ds[1..][i].content, i < |ds[1..]| - 1) {
        assert LeadsAt(store, no + (i + 1), ds[i + 1].content, i + 1 < |ds| - 1);
      }
      FetchLeads(store, ds[1..], no + 1, buffer + ds[0].content);
      assert buffer + ds[0].content + Joined(ds[1..]) == buffer + Joined(ds);
    } else {
      assert ds[0].content + [] == ds[0].content;
    }
  }

  lemma {:induction false} SplitJoined(raw: seq<Byte>, size: nat, no: nat)
    requires size > 0
    ensures Joined(Split(raw, size, no)) == raw
    decreases |raw|
  {
    if |raw| <= size {
      assert [Data(no, raw, Some(no))][1..] == [] && raw + [] == raw;
    } else {
      var rest := Split(raw[size..], size, no + 1);
      SplitJoined(raw[size..], size, no + 1);
      assert ([Data(no, raw[..size], None)] + rest)[1..] == rest;
      assert raw[..size] + raw[size..] == raw;
    }
  }

  /** Fetching what was published gives back the stream and stops at the last segment, also
      when earlier segments already carry the number of the last one. */
  lemma RoundTripMarked(raw: seq<Byte>, size: nat, store: Store)
    requires size > 0 && Numbered(store)
    requires var ds := Split(raw, size, 0);
             && (forall i :: 0 <= i < |ds| ==> i in store && store[i].content == ds[i].content)
             && (forall i :: 0 <= i < |ds| - 1 ==>
                   store[i].finalBlockId == None || store[i].finalBlockId == Some(|ds| - 1))
             && store[|ds| - 1].finalBlockId == Some(|ds| - 1)
    ensures FetchFrom(store, 0, []) == Some((raw, |Split(raw, size, 0)| - 1))
  {
    var ds := Split(raw, size, 0);
    forall i | 0 <= i < |ds| ensures LeadsAt(store, 0 + i, ds[i].content, i < |ds| - 1) {
      assert i in store && store[i].segmentNo == i;
    }
    FetchLeads(store, ds, 0, []);
    SplitJoined(raw, size, 0);
    assert [] + raw == raw;
  }

  /** The store of just the published segments is one of those. */
  lemma RoundTrip(raw: seq<Byte>, size: nat)
    requires size > 0
    ensures var ds := Split(raw, size, 0);
            Numbered(StoreOf(ds)) && FetchFrom(StoreOf(ds), 0, []) == Some((raw, |ds| - 1))
  {
    SplitShape(raw, size, 0);
    RoundTripMarked(raw, size, StoreOf(Split(raw, size, 0)));
  }

  /** The contents of the segments from `i` to below `j`; missing ones are empty. */
  ghost function Contents(store: Store, i: nat, j: nat): seq<Byte>
    decreases j - i
  {
    if i >= j then [] else (if i in store then store[i].content else []) + Contents(store, i + 1, j)
  }

  /** Fetching passes the segments from `i` to below `j`. */
  ghost predicate Passed(store: Store, i: nat, j: nat) {
    forall m :: i <= m < j ==> m in store && GoesOn(store[m])
  }

  /** In any store: fetching goes through consecutive segments as long as they say so; it
      ends well at the first that does not, with all contents in order, and fails at the
      first that is not there. */
  lemma {:induction false} FetchOutcome(store: Store, i: nat, buffer: seq<Byte>)
    requires Numbered(store)
    ensures match FetchFrom(store, i, buffer)
            case Some((octets, last)) =>
              && i <= last && Passed(store, i, last) && last in store && !GoesOn(store[last])
              && octets == buffer + Contents(store, i, last + 1)
            case None => exists gap :: i <= gap && Passed(store, i, gap) && gap !in store
    decreases NumbersFrom(store, i)
  {
    if i in store {
      var d := store[i];
      assert i in NumbersFrom(store, i) && i !in NumbersFrom(store, i + 1) &&
          NumbersFrom(store, i + 1) <= NumbersFrom(store, i);
      if GoesOn(d) {
        FetchOutcome(store, i + 1, buffer + d.content);
        match FetchFrom(store, i + 1, buffer + d.content)
        case Some((_, last)) =>
          assert Passed(store, i, last);
          assert buffer + d.content + Contents(store, i + 1, last + 1) == buffer + Contents(store, i, last + 1);
        case None =>
          var gap :| i + 1 <= gap && Passed(store, i + 1, gap) && gap !in store;
          assert Passed(store, i, gap);
      } else {
        assert Contents(store, i + 1, i + 1) == [] && d.content + [] == d.content;
      }
    } else {
      assert Passed(store, i, i);
    }
  }
}
