/** Address ranges written as an address and a mask length (`operator>>` and
    `doesContain` of `Network`). */
module Networks {

  type Byte = bv8

  datatype Family = V4 | V6

  function Width(f: Family): nat { if f == V4 then 4 else 16 }

  /** An address; addresses of different families are ordered by family. */
  datatype Address = Address(family: Family, bytes: seq<Byte>)
  {
    predicate Valid() { |bytes| == Width(family) }
  }

  datatype Network = Network(minAddress: Address, maxAddress: Address)

  // --------------------------------------------------------------------- ordering

  /** Comparison of byte arrays, first byte first. */
  predicate BytesLess(a: seq<Byte>, b: seq<Byte>)
    requires |a| == |b|
  {
    a != [] && (a[0] < b[0] || (a[0] == b[0] && BytesLess(a[1..], b[1..])))
  }

  predicate Less(a: Address, b: Address)
    requires a.Valid() && b.Valid()
  {
    if a.family != b.family then a.family == V4 else BytesLess(a.bytes, b.bytes)
  }

  predicate AtMost(a: Address, b: Address)
    requires a.Valid() && b.Valid()
  {
    !Less(b, a)
  }

  predicate DoesContain(n: Network, x: Address)
    requires n.minAddress.Valid() && n.maxAddress.Valid() && x.Valid()
  {
    AtMost(n.minAddress, x) && AtMost(x, n.maxAddress)
  }

  // ------------------------------------------------------------------------- masks

  /** Bit `j` of a byte, the most significant one being bit 0. */
  predicate BitOf(b: Byte, j: nat)
    requires j < 8
  {
    (b >> (7 - j)) & 1 == 1
  }

  /** A byte with the first `k` bits set. */
  function MaskByte(k: nat): Byte {
    if k == 0 then 0x00 else if k == 1 then 0x80 else if k == 2 then 0xC0 else if k == 3 then 0xE0
    else if k == 4 then 0xF0 else if k == 5 then 0xF8 else if k == 6 then 0xFC else if k == 7 then 0xFE else 0xFF
  }

  /** The number of mask bits that fall into byte `i`. */
  function BitsIn(mask: nat, i: nat): nat {
    if mask <= 8 * i then 0 else if mask >= 8 * i + 8 then 8 else mask - 8 * i
  }

  lemma SetNextBit(k: nat)
    requires k < 8
    ensures MaskByte(k) | ((1 as Byte) << (7 - k)) == MaskByte(k + 1)
  {
  }

  /** The loop that sets the mask bits one by one. */
  method MaskBytes(width: nat, mask: nat) returns (m: array<Byte>)
    requires mask <= 8 * width
    ensures fresh(m) && m.Length == width
    ensures forall i :: 0 <= i < width ==> m[i] == MaskByte(BitsIn(mask, i))
  {
    m := new Byte[width](_ => 0);
    for i := 0 to mask
      invariant fresh(m) && m.Length == width
      invariant forall j :: 0 <= j < width ==> m[j] == MaskByte(BitsIn(i, j))
    {
      var byteId := i / 8;
      var bitIndex := 7 - i % 8;
      SetNextBit(i % 8);
      assert BitsIn(i, byteId) == i % 8 && BitsIn(i + 1, byteId) == i % 8 + 1;
      m[byteId] := m[byteId] | ((1 as Byte) << bitIndex);
    }
  }

  function MinByte(a: Byte, m: Byte): Byte { a & m }

  function MaxByte(a: Byte, m: Byte): Byte { a | !m }

  function MinBytes(a: seq<Byte>, mask: nat, from: nat): (r: seq<Byte>)
    ensures |r| == |a|
  {
    if a == [] then [] else [MinByte(a[0], MaskByte(BitsIn(mask, from)))] + MinBytes(a[1..], mask, from + 1)
  }

  function MaxBytes(a: seq<Byte>, mask: nat, from: nat): (r: seq<Byte>)
    ensures |r| == |a|
  {
    if a == [] then [] else [MaxByte(a[0], MaskByte(BitsIn(mask, from)))] + MaxBytes(a[1..], mask, from + 1)
  }

  lemma {:induction false} RangeBytesAt(a: seq<Byte>, mask: nat, from: nat, i: nat)
    requires i < |a|
    ensures MinBytes(a, mask, from)[i] == MinByte(a[i], MaskByte(BitsIn(mask, from + i)))
    ensures MaxBytes(a, mask, from)[i] == MaxByte(a[i], MaskByte(BitsIn(mask, from + i)))
  {
    if i > 0 {
      RangeBytesAt(a[1..], mask, from + 1, i - 1);
    }
  }

  /** The network denoted by an address with a mask length. */
  function Cidr(a: Address, mask: nat): (n: Network)
    ensures a.Valid() ==> n.minAddress.Valid() && n.maxAddress.Valid()
  {
    Network(Address(a.family, MinBytes(a.bytes, mask, 0)), Address(a.family, MaxBytes(a.bytes, mask, 0)))
  }

  /** `operator>>` once the text is split at the slash. */
  method Parse(a: Address, mask: nat) returns (n: Network)
    requires a.Valid() && mask <= 8 * Width(a.family)
    ensures n == Cidr(a, mask)
  {
    var width := Width(a.family);
    var maskBytes := MaskBytes(width, mask);
    var min, max := RangeBytes(a.bytes, maskBytes);
    n := Network(Address(a.family, min[..]), Address(a.family, max[..]));
    forall i | 0 <= i < width
        ensures min[i] == MinBytes(a.bytes, mask, 0)[i] && max[i] == MaxBytes(a.bytes, mask, 0)[i] {
      RangeBytesAt(a.bytes, mask, 0, i);
    }
    assert min[..] == MinBytes(a.bytes, mask, 0);
    assert max[..] == MaxBytes(a.bytes, mask, 0);
  }

  method RangeBytes(a: seq<Byte>, m: array<Byte>) returns (min: array<Byte>, max: array<Byte>)
    requires m.Length == |a|
    ensures min.Length == max.Length == |a|
    ensures forall i :: 0 <= i < |a| ==> min[i] == MinByte(a[i], m[i]) && max[i] == MaxByte(a[i], m[i])
  {
    min := new Byte[|a|](_ => 0);
    max := new Byte[|a|](_ => 0);
    for i := 0 to |a|
      invariant forall j :: 0 <= j < i ==> min[j] == MinByte(a[j], m[j]) && max[j] == MaxByte(a[j], m[j])
    {
      min[i] := a[i] & m[i];
      max[i] := a[i] | !m[i];
    }
  }

  // ------------------------------------------------------------------- correctness

  /** The two addresses agree on the first `mask` bits, counted from byte `from`. */
  ghost predicate AgreeOn(a: seq<Byte>, x: seq<Byte>, mask: nat, from: nat)
    requires |a| == |x|
  {
    forall i, j :: 0 <= i < |a| && 0 <= j < 8 && 8 * (from + i) + j < mask ==> (BitOf(a[i], j) <==> BitOf(x[i], j))
  }

  lemma SameMaskedMeansSameBits(a: Byte, x: Byte, k: nat)
    requires k <= 8
    ensures a & MaskByte(k) == x & MaskByte(k) <==> forall j :: 0 <= j < k ==> (BitOf(a, j) <==> BitOf(x, j))
  {
    BitsDecide(a, x, k);
    if a & MaskByte(k) == x & MaskByte(k) {
      forall j | 0 <= j < k ensures BitOf(a, j) <==> BitOf(x, j) {
        assert j == 0 || j == 1 || j == 2 || j == 3 || j == 4 || j == 5 || j == 6 || j == 7;
      }
    }
  }

  lemma BitsDecide(a: Byte, x: Byte, k: nat)
    requires k <= 8
    ensures a & MaskByte(k) == x & MaskByte(k) <==>
            && (k > 0 ==> (BitOf(a, 0) <==> BitOf(x, 0))) && (k > 1 ==> (BitOf(a, 1) <==> BitOf(x, 1)))
            && (k > 2 ==> (BitOf(a, 2) <==> BitOf(x, 2))) && (k > 3 ==> (BitOf(a, 3) <==> BitOf(x, 3)))
            && (k > 4 ==> (BitOf(a, 4) <==> BitOf(x, 4))) && (k > 5 ==> (BitOf(a, 5) <==> BitOf(x, 5)))
            && (k > 6 ==> (BitOf(a, 6) <==> BitOf(x, 6))) && (k > 7 ==> (BitOf(a, 7) <==> BitOf(x, 7)))
  {
  }

  /** Within a byte: between the bounds means the same masked bits. Under a full
      mask the bounds are the byte itself, under an empty one they bound nothing. */
  lemma ByteBounds(a: Byte, x: Byte, k: nat)
    requires k <= 8
    ensures var m := MaskByte(k);
            && (MinByte(a, m) <= x <= MaxByte(a, m) <==> a & m == x & m)
            && (k == 8 ==> MinByte(a, m) == a == MaxByte(a, m))
            && (k == 0 ==> MinByte(a, m) == 0 && MaxByte(a, m) == 0xFF)
            && MinByte(a, m) <= MaxByte(a, m)
  {
  }

  /** Below an all-zero and above an all-one tail there is nothing. */
  lemma {:induction false} TailBounds(a: seq<Byte>, x: seq<Byte>, mask: nat, from: nat)
    requires |a| == |x| && mask <= 8 * from
    ensures !BytesLess(x, MinBytes(a, mask, from)) && !BytesLess(MaxBytes(a, mask, from), x)
  {
    if a != [] {
      ByteBounds(a[0], x[0], 0);
      TailBounds(a[1..], x[1..], mask, from + 1);
    }
  }

  predicate Within(min: seq<Byte>, x: seq<Byte>, max: seq<Byte>)
    requires |min| == |x| == |max|
  {
    !BytesLess(x, min) && !BytesLess(max, x)
  }

  /** A full first byte must be equal and passes the question on. */
  lemma WithinFullByte(min: seq<Byte>, x: seq<Byte>, max: seq<Byte>)
    requires |min| == |x| == |max| > 0 && min[0] == max[0]
    ensures Within(min, x, max) <==> x[0] == min[0] && Within(min[1..], x[1..], max[1..])
  {
  }

  /** When the tails bound nothing the first byte decides. */
  lemma WithinLastByte(min: seq<Byte>, x: seq<Byte>, max: seq<Byte>)
    requires |min| == |x| == |max| > 0 && Within(min[1..], x[1..], max[1..])
    ensures Within(min, x, max) <==> min[0] <= x[0] <= max[0]
  {
  }

  lemma {:induction false} BytesWithin(a: seq<Byte>, x: seq<Byte>, mask: nat, from: nat)
    requires |a| == |x|
    ensures Within(MinBytes(a, mask, from), x, MaxBytes(a, mask, from)) <==> AgreeOn(a, x, mask, from)
  {
    if a != [] {
      if BitsIn(mask, from) == 8 {
        BytesWithin(a[1..], x[1..], mask, from + 1);
        FullByteStep(a, x, mask, from);
      } else {
        LastByteStep(a, x, mask, from);
      }
    }
  }

  lemma BytesUnfold(a: seq<Byte>, mask: nat, from: nat)
    requires a != []
    ensures var min, max := MinBytes(a, mask, from), MaxBytes(a, mask, from);
            && |min| == |max| == |a|
            && min[1..] == MinBytes(a[1..], mask, from + 1) && max[1..] == MaxBytes(a[1..], mask, from + 1)
            && min[0] == MinByte(a[0], MaskByte(BitsIn(mask, from)))
            && max[0] == MaxByte(a[0], MaskByte(BitsIn(mask, from)))
  {
  }

  lemma FullByteStep(a: seq<Byte>, x: seq<Byte>, mask: nat, from: nat)
    requires |a| == |x| > 0 && BitsIn(mask, from) == 8
    requires Within(MinBytes(a[1..], mask, from + 1), x[1..], MaxBytes(a[1..], mask, from + 1))
             <==> AgreeOn(a[1..], x[1..], mask, from + 1)
    ensures Within(MinBytes(a, mask, from), x, MaxBytes(a, mask, from)) <==> AgreeOn(a, x, mask, from)
  {
    BytesUnfold(a, mask, from);
    AgreeOnFirst(a, x, mask, from);
    FirstByte(a[0], x[0], 8);
    WithinFullByte(MinBytes(a, mask, from), x, MaxBytes(a, mask, from));
  }

  lemma LastByteStep(a: seq<Byte>, x: seq<Byte>, mask: nat, from: nat)
    requires |a| == |x| > 0 && BitsIn(mask, from) != 8
    ensures Within(MinBytes(a, mask, from), x, MaxBytes(a, mask, from)) <==> AgreeOn(a, x, mask, from)
  {
    BytesUnfold(a, mask, from);
    AgreeOnFirst(a, x, mask, from);
    FirstByte(a[0], x[0], BitsIn(mask, from));
    TailBounds(a[1..], x[1..], mask, from + 1);
    WithinLastByte(MinBytes(a, mask, from), x, MaxBytes(a, mask, from));
  }

  /** The two bytes agree on the first `k` bits. */
  ghost predicate HeadAgrees(a: Byte, x: Byte, k: nat)
    requires k <= 8
  {
    forall j :: 0 <= j < k ==> (BitOf(a, j) <==> BitOf(x, j))
  }

  lemma FirstByte(a: Byte, x: Byte, k: nat)
    requires k <= 8
    ensures var m := MaskByte(k);
            && (MinByte(a, m) <= x <= MaxByte(a, m) <==> HeadAgrees(a, x, k))
            && (k == 8 ==>
                  MinByte(a, m) == MaxByte(a, m) == a && (x == a <==> MinByte(a, m) <= x <= MaxByte(a, m)))
  {
    ByteBounds(a, x, k);
    SameMaskedMeansSameBits(a, x, k);
  }

  lemma AgreeOnFirst(a: seq<Byte>, x: seq<Byte>, mask: nat, from: nat)
    requires |a| == |x| > 0
    ensures AgreeOn(a, x, mask, from) <==>
            HeadAgrees(a[0], x[0], BitsIn(mask, from)) && AgreeOn(a[1..], x[1..], mask, from + 1)
    ensures BitsIn(mask, from) < 8 ==> AgreeOn(a[1..], x[1..], mask, from + 1)
  {
  }

  /** Section 3.1 of RFC 4632: an address is in the range if and only if it is of the
      same family and agrees with the given address on the first `mask` bits. */
  lemma CidrCorrect(a: Address, mask: nat, x: Address)
    requires a.Valid() && x.Valid() && mask <= 8 * Width(a.family)
    ensures DoesContain(Cidr(a, mask), x) <==> a.family == x.family && AgreeOn(a.bytes, x.bytes, mask, 0)
  {
    if a.family == x.family {
      BytesWithin(a.bytes, x.bytes, mask, 0);
    }
  }

  /** Without a slash both ends are the address, and only it is contained. */
  lemma {:induction false} BytesTotal(a: seq<Byte>, b: seq<Byte>)
    requires |a| == |b|
    ensures !BytesLess(a, b) && !BytesLess(b, a) <==> a == b
  {
    if a != [] {
      BytesTotal(a[1..], b[1..]);
      assert a == [a[0]] + a[1..] && b == [b[0]] + b[1..];
    }
  }

  lemma SingleAddress(a: Address, x: Address)
    requires a.Valid() && x.Valid()
    ensures DoesContain(Network(a, a), x) <==> x == a
  {
    if a.family == x.family {
      BytesTotal(a.bytes, x.bytes);
    }
  }
}
