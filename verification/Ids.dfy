/**
  Node ids (src/common/id.rs): 20-byte strings, seen here both as the bytes the
  program handles and as the 160 bits the protocol talks about.
 */
module Ids {
  import opened Wrappers

  const ID_SIZE: nat := 20
  const ID_BITS: nat := 160

  type Id = bytes: seq<bv8> | |bytes| == ID_SIZE witness seq(ID_SIZE, _ => 0)

  /** The id that begins with byte b and goes on with zeros. */
  function FirstByteId(b: bv8): Id {
    [b] + seq(ID_SIZE - 1, _ => 0)
  }

  const ZERO: Id := FirstByteId(0)

  datatype Ordering = Less | Equal | Greater

  // ---------- bits ----------

  /** Selects bit i of a byte, counting from the most significant. */
  function Mask(i: nat): (m: bv8)
    requires i < 8
    ensures m == 0x80 || m == 0x40 || m == 0x20 || m == 0x10 || m == 8 || m == 4 || m == 2 || m == 1
  {
    match i
    case 0 => 0x80 case 1 => 0x40 case 2 => 0x20 case 3 => 0x10
    case 4 => 8 case 5 => 4 case 6 => 2 case _ => 1
  }

  predicate BitSet(b: bv8, i: nat)
    requires i < 8
  {
    b & Mask(i) != 0
  }

  /** The eight bits of a byte, most significant first. */
  function ByteBits(b: bv8): (bits: seq<bool>)
    ensures |bits| == 8
  {
    seq(8, i requires 0 <= i < 8 => BitSet(b, i))
  }

  /** All bits of a byte string, in network order. */
  function Bits(bytes: seq<bv8>): (bits: seq<bool>)
    ensures |bits| == 8 * |bytes|
  {
    if bytes == [] then [] else ByteBits(bytes[0]) + Bits(bytes[1..])
  }

  /** The number of leading positions on which two bit strings agree. */
  function CommonPrefix(a: seq<bool>, b: seq<bool>): (n: nat)
    requires |a| == |b|
    ensures n <= |a|
    ensures forall i :: 0 <= i < n ==> a[i] == b[i]
    ensures n < |a| ==> a[n] != b[n]
  {
    if a == [] || a[0] != b[0] then 0 else 1 + CommonPrefix(a[1..], b[1..])
  }

  /** How many leading bits two ids share. */
  function Prefix(a: Id, b: Id): (n: nat)
    ensures n <= ID_BITS
  {
    CommonPrefix(Bits(a), Bits(b))
  }

  function Pow2(n: nat): (p: nat)
    ensures p > 0
  {
    if n == 0 then 1 else 2 * Pow2(n - 1)
  }

  /** The number a bit string denotes, most significant bit first. */
  function Value(bits: seq<bool>): (v: nat)
    ensures v < Pow2(|bits|)
  {
    if bits == [] then 0 else (if bits[0] then Pow2(|bits| - 1) else 0) + Value(bits[1..])
  }

  function XorBits(a: seq<bool>, b: seq<bool>): (c: seq<bool>)
    requires |a| == |b|
  {
    seq(|a|, i requires 0 <= i < |a| => a[i] != b[i])
  }

  function XorBytes(a: seq<bv8>, b: seq<bv8>): (c: seq<bv8>)
    requires |a| == |b|
    ensures |c| == |a|
  {
    seq(|a|, i requires 0 <= i < |a| => a[i] ^ b[i])
  }

  /** The id read as a 160-bit big-endian number. */
  function IdValue(id: Id): nat {
    Value(Bits(id))
  }

  /** The XOR distance of two ids, as a number. */
  function Distance(a: Id, b: Id): nat {
    IdValue(XorBytes(a, b))
  }

  // ---------- bit strings ----------

  /** What Value orders by: the first bit where two strings differ. */
  lemma {:induction false} FirstDifferenceDecides(a: seq<bool>, b: seq<bool>, n: nat)
    requires |a| == |b| && n < |a|
    requires (forall i :: 0 <= i < n ==> a[i] == b[i]) && !a[n] && b[n]
    ensures Value(a) < Value(b)
  {
    if n > 0 {
      FirstDifferenceDecides(a[1..], b[1..], n - 1);
    }
  }

  lemma ValueInjective(a: seq<bool>, b: seq<bool>)
    requires |a| == |b| && Value(a) == Value(b)
    ensures a == b
  {
    var n := CommonPrefix(a, b);
    if n < |a| {
      if a[n] {
        FirstDifferenceDecides(b, a, n);
      } else {
        FirstDifferenceDecides(a, b, n);
      }
    }
  }

  lemma {:induction false} LeadingZerosBound(a: seq<bool>, d: nat)
    requires d <= |a| && forall i :: 0 <= i < d ==> !a[i]
    ensures Value(a) < Pow2(|a| - d)
  {
    if d > 0 {
      LeadingZerosBound(a[1..], d - 1);
    }
  }

  lemma {:induction false} XorTriangle(a: seq<bool>, b: seq<bool>, c: seq<bool>)
    requires |a| == |b| == |c|
    ensures Value(XorBits(a, c)) <= Value(XorBits(a, b)) + Value(XorBits(b, c))
  {
    if a != [] {
      XorTriangle(a[1..], b[1..], c[1..]);
      assert XorBits(a, c)[1..] == XorBits(a[1..], c[1..]);
      assert XorBits(a, b)[1..] == XorBits(a[1..], b[1..]);
      assert XorBits(b, c)[1..] == XorBits(b[1..], c[1..]);
    }
  }

  /** CommonPrefix is the only number that its two postconditions describe. */
  lemma PrefixIsUnique(a: seq<bool>, b: seq<bool>, n: nat)
    requires |a| == |b| && n <= |a|
    requires forall i :: 0 <= i < n ==> a[i] == b[i]
    requires n < |a| ==> a[n] != b[n]
    ensures CommonPrefix(a, b) == n
  {
    var m := CommonPrefix(a, b);
    if m < n {
      assert false;
    } else if n < m {
      assert false;
    }
  }

  // ---------- bytes against bits ----------

  /** Masking one bit of an exclusive or. */
  lemma XorMask(x: bv8, y: bv8, m: bv8)
    requires m == 0x80 || m == 0x40 || m == 0x20 || m == 0x10 || m == 8 || m == 4 || m == 2 || m == 1
    ensures ((x ^ y) & m != 0) == ((x & m != 0) != (y & m != 0))
  {
  }

  lemma XorByteBits(x: bv8, y: bv8)
    ensures ByteBits(x ^ y) == XorBits(ByteBits(x), ByteBits(y))
  {
    forall i | 0 <= i < 8 ensures BitSet(x ^ y, i) == (BitSet(x, i) != BitSet(y, i)) {
      XorBit(x, y, i);
    }
  }

  lemma XorBitsConcat(p: seq<bool>, q: seq<bool>, s: seq<bool>, t: seq<bool>)
    requires |p| == |q| && |s| == |t|
    ensures XorBits(p + s, q + t) == XorBits(p, q) + XorBits(s, t)
  {
  }

  lemma {:induction false} XorBytesBits(a: seq<bv8>, b: seq<bv8>)
    requires |a| == |b|
    ensures Bits(XorBytes(a, b)) == XorBits(Bits(a), Bits(b))
  {
    if a != [] {
      XorBytesBits(a[1..], b[1..]);
      XorByteBits(a[0], b[0]);
      assert XorBytes(a, b)[1..] == XorBytes(a[1..], b[1..]);
      XorBitsConcat(ByteBits(a[0]), ByteBits(b[0]), Bits(a[1..]), Bits(b[1..]));
    }
  }

  /** The number of leading zero bits of a byte (Rust's u8::leading_zeros). */
  function LeadingZeros(b: bv8): (n: nat)
    ensures n <= 8
    ensures forall i :: 0 <= i < n ==> !BitSet(b, i)
    ensures n < 8 ==> BitSet(b, n)
  {
    if BitSet(b, 0) then 0 else if BitSet(b, 1) then 1
    else if BitSet(b, 2) then 2 else if BitSet(b, 3) then 3
    else if BitSet(b, 4) then 4 else if BitSet(b, 5) then 5
    else if BitSet(b, 6) then 6 else if BitSet(b, 7) then 7
    else 8
  }

  lemma NoBitsIsZero(b: bv8)
    requires forall i :: 0 <= i < 8 ==> !BitSet(b, i)
    ensures b == 0
  {
    assert !BitSet(b, 0) && !BitSet(b, 1) && !BitSet(b, 2) && !BitSet(b, 3);
    assert !BitSet(b, 4) && !BitSet(b, 5) && !BitSet(b, 6) && !BitSet(b, 7);
  }

  lemma XorZeroEqual(x: bv8, y: bv8)
    requires x ^ y == 0
    ensures x == y
  {
  }

  /** Where the leading bits agree and the next differs, that bit orders the bytes. */
  lemma BitOrders(x: bv8, y: bv8, z: bv8, n: nat)
    requires n < 8 && z == x ^ y
    requires forall i :: 0 <= i < n ==> !BitSet(z, i)
    requires BitSet(z, n) && BitSet(x, n)
    ensures y < x
  {
    assert n > 0 ==> !BitSet(z, 0);
    assert n > 1 ==> !BitSet(z, 1);
    assert n > 2 ==> !BitSet(z, 2);
    assert n > 3 ==> !BitSet(z, 3);
    assert n > 4 ==> !BitSet(z, 4);
    assert n > 5 ==> !BitSet(z, 5);
    assert n > 6 ==> !BitSet(z, 6);
  }

  lemma XorBit(x: bv8, y: bv8, i: nat)
    requires i < 8
    ensures BitSet(x ^ y, i) == (BitSet(x, i) != BitSet(y, i))
  {
    var m := Mask(i);
    XorMask(x, y, m);
    assert BitSet(x ^ y, i) == ((x ^ y) & m != 0);
    assert BitSet(x, i) == (x & m != 0);
    assert BitSet(y, i) == (y & m != 0);
  }

  lemma DifferentBytesDiffer(x: bv8, y: bv8)
    requires x != y
    ensures LeadingZeros(x ^ y) < 8
  {
    if LeadingZeros(x ^ y) == 8 {
      NoBitsIsZero(x ^ y);
      XorZeroEqual(x, y);
    }
  }

  /** Two different bytes part at the leading zeros of their exclusive or. */
  lemma FirstDifferentBit(x: bv8, y: bv8) returns (n: nat)
    requires x != y
    ensures n < 8 && n == LeadingZeros(x ^ y) && BitSet(x, n) != BitSet(y, n)
    ensures forall i :: 0 <= i < n ==> BitSet(x, i) == BitSet(y, i)
    ensures x < y ==> BitSet(y, n)
  {
    DifferentBytesDiffer(x, y);
    n := LeadingZeros(x ^ y);
    forall i | 0 <= i <= n ensures BitSet(x ^ y, i) == (BitSet(x, i) != BitSet(y, i)) {
      XorBit(x, y, i);
    }
    if x < y && BitSet(x, n) {
      BitOrders(x, y, x ^ y, n);
      assert false;
    }
  }

  /** Bit j of a byte string is bit j mod 8 of byte j div 8. */
  lemma {:induction false} BitsAt(a: seq<bv8>, j: nat)
    requires j < 8 * |a|
    ensures Bits(a)[j] == BitSet(a[j / 8], j % 8)
  {
    if j < 8 {
      assert Bits(a)[j] == ByteBits(a[0])[j];
    } else {
      var rest := a[1..];
      BitsAt(rest, j - 8);
      assert (j - 8) / 8 == j / 8 - 1 && (j - 8) % 8 == j % 8;
      assert Bits(a)[j] == Bits(rest)[j - 8];
    }
  }

  /** The first different byte, and in it the first different bit, end the shared prefix. */
  lemma FirstDifferentByte(a: Id, b: Id, i: nat, n: nat)
    requires i < ID_SIZE && n < 8
    requires forall j :: 0 <= j < i ==> a[j] == b[j]
    requires forall j :: 0 <= j < n ==> BitSet(a[i], j) == BitSet(b[i], j)
    requires BitSet(a[i], n) != BitSet(b[i], n)
    ensures Prefix(a, b) == 8 * i + n
    ensures Bits(a)[8 * i + n] == BitSet(a[i], n)
    ensures Bits(b)[8 * i + n] == BitSet(b[i], n)
  {
    forall j | 0 <= j < 8 * i + n ensures Bits(a)[j] == Bits(b)[j] {
      EarlierBitsAgree(a, b, i, n, j);
    }
    BitsAt(a, 8 * i + n);
    BitsAt(b, 8 * i + n);
    assert (8 * i + n) / 8 == i && (8 * i + n) % 8 == n;
    PrefixIsUnique(Bits(a), Bits(b), 8 * i + n);
  }

  lemma EarlierBitsAgree(a: Id, b: Id, i: nat, n: nat, j: nat)
    requires i < ID_SIZE && n < 8 && j < 8 * i + n
    requires forall j :: 0 <= j < i ==> a[j] == b[j]
    requires forall j :: 0 <= j < n ==> BitSet(a[i], j) == BitSet(b[i], j)
    ensures Bits(a)[j] == Bits(b)[j]
  {
    BitsAt(a, j);
    BitsAt(b, j);
    if j / 8 < i {
      assert a[j / 8] == b[j / 8];
    } else {
      assert j / 8 == i && j % 8 < n;
    }
  }

  lemma {:induction false} BitsInjective(a: seq<bv8>, b: seq<bv8>)
    requires |a| == |b| && Bits(a) == Bits(b)
    ensures a == b
  {
    if a != [] {
      assert ByteBits(a[0]) == Bits(a)[..8] == Bits(b)[..8] == ByteBits(b[0]);
      ByteBitsInjective(a[0], b[0]);
      assert Bits(a[1..]) == Bits(a)[8..] == Bits(b)[8..] == Bits(b[1..]);
      BitsInjective(a[1..], b[1..]);
    }
  }

  lemma BitOfByte(x: bv8, n: nat)
    requires n < 8
    ensures ByteBits(x)[n] == BitSet(x, n)
  {
  }

  lemma ByteBitsInjective(x: bv8, y: bv8)
    requires ByteBits(x) == ByteBits(y)
    ensures x == y
  {
    if x != y {
      var n := FirstDifferentBit(x, y);
      BitOfByte(x, n);
      BitOfByte(y, n);
      assert false;
    }
  }

  // ---------- the id metric ----------

  lemma PrefixLaws(a: Id, b: Id, c: Id)
    ensures Prefix(a, b) == Prefix(b, a)
    ensures Prefix(a, b) == ID_BITS <==> a == b
    ensures Prefix(a, c) >= Min(Prefix(a, b), Prefix(b, c))
  {
    var x, y, z := Bits(a), Bits(b), Bits(c);
    PrefixIsUnique(y, x, CommonPrefix(x, y));
    if Prefix(a, b) == ID_BITS {
      assert x == y;
      BitsInjective(a, b);
    }
    var n := CommonPrefix(x, z);
    if n < Prefix(a, b) && n < Prefix(b, c) {
      assert false;
    }
  }

  lemma DistanceBits(a: Id, b: Id)
    ensures Distance(a, b) == Value(XorBits(Bits(a), Bits(b)))
  {
    XorBytesBits(a, b);
  }

  lemma DistanceLaws(a: Id, b: Id, c: Id)
    ensures Distance(a, b) == 0 <==> a == b
    ensures Distance(a, b) == Distance(b, a)
    ensures Distance(a, c) <= Distance(a, b) + Distance(b, c)
    ensures Distance(a, b) == Distance(a, c) ==> b == c
  {
    DistanceBits(a, b);
    DistanceBits(b, a);
    DistanceBits(b, c);
    DistanceBits(a, c);
    XorTriangle(Bits(a), Bits(b), Bits(c));
    assert XorBits(Bits(a), Bits(b)) == XorBits(Bits(b), Bits(a));
    SameDistanceSameId(a, b, c);
    SameDistanceSameId(a, b, a);
    DistanceToSelf(a);
  }

  lemma DistanceToSelf(a: Id)
    ensures Distance(a, a) == 0
  {
    DistanceBits(a, a);
    LeadingZerosBound(XorBits(Bits(a), Bits(a)), ID_BITS);
  }

  lemma SameDistanceSameId(a: Id, b: Id, c: Id)
    ensures Distance(a, b) == Distance(a, c) ==> b == c
  {
    if Distance(a, b) == Distance(a, c) {
      DistanceBits(a, b);
      DistanceBits(a, c);
      var x, y, z := Bits(a), Bits(b), Bits(c);
      ValueInjective(XorBits(x, y), XorBits(x, z));
      forall i | 0 <= i < ID_BITS ensures y[i] == z[i] {
        assert XorBits(x, y)[i] == XorBits(x, z)[i];
      }
      assert y == z;
      BitsInjective(b, c);
    }
  }

  /** A strictly longer shared prefix means a strictly smaller XOR distance. */
  lemma LongerPrefixIsNearer(t: Id, a: Id, b: Id)
    requires Prefix(t, a) > Prefix(t, b)
    ensures Distance(t, a) < Distance(t, b)
  {
    DistanceBits(t, a);
    DistanceBits(t, b);
    var n, m := Prefix(t, b), Prefix(t, a);
    var x, y, z := Bits(t), Bits(a), Bits(b);
    forall i | 0 <= i <= n ensures x[i] == y[i] {
    }
    forall i | 0 <= i < n ensures x[i] == z[i] {
    }
    FirstDifferenceDecides(XorBits(x, y), XorBits(x, z), n);
  }

  lemma PrefixBoundsDistance(t: Id, a: Id, d: nat)
    requires d <= Prefix(t, a)
    ensures Distance(t, a) < Pow2(ID_BITS - d)
  {
    DistanceBits(t, a);
    var n := Prefix(t, a);
    forall i | 0 <= i < d ensures Bits(t)[i] == Bits(a)[i] {
    }
    LeadingZerosBound(XorBits(Bits(t), Bits(a)), d);
  }

  lemma {:induction false} BoundedSetSize(s: set<nat>, hi: nat)
    requires forall x :: x in s ==> x < hi
    ensures |s| <= hi
  {
    if hi == 0 {
      assert s == {};
    } else {
      var rest := s - {hi - 1};
      BoundedSetSize(rest, hi - 1);
      assert s <= rest + {hi - 1};
      if hi - 1 in s {
        assert s == rest + {hi - 1};
      } else {
        assert s == rest;
      }
    }
  }

  lemma {:induction false} DistancesOf(t: Id, s: set<Id>) returns (ds: set<nat>)
    ensures |ds| == |s|
    ensures forall n :: n in ds <==> exists a :: a in s && Distance(t, a) == n
  {
    if s == {} {
      ds := {};
    } else {
      var a :| a in s;
      ds := DistancesOf(t, s - {a});
      forall b | b in s - {a} ensures Distance(t, a) != Distance(t, b) {
        SameDistanceSameId(t, a, b);
      }
      assert |s| == |s - {a}| + 1;
      ds := ds + {Distance(t, a)};
    }
  }

  /** Pigeonhole: fewer than 2^(160-d) ids other than t share d bits with t. */
  lemma FewIdsSharePrefix(t: Id, s: set<Id>, d: nat)
    requires d <= ID_BITS && t !in s
    requires forall a :: a in s ==> Prefix(t, a) >= d
    ensures |s| + 1 <= Pow2(ID_BITS - d)
  {
    var ds := DistancesOf(t, s + {t});
    assert |s + {t}| == |s| + 1;
    PrefixLaws(t, t, t);
    forall n | n in ds ensures n < Pow2(ID_BITS - d) {
      var a :| a in s + {t} && Distance(t, a) == n;
      PrefixBoundsDistance(t, a, d);
    }
    BoundedSetSize(ds, Pow2(ID_BITS - d));
  }

  /** An id whose first bit is set shares no bit with the zero id. */
  lemma HighBitDiffers(id: Id)
    requires id[0] >= 0x80
    ensures Prefix(ZERO, id) == 0
  {
    assert id[0] & 0x80 != 0 && BitSet(id[0], 0) && !BitSet(ZERO[0], 0) by {
      HighBit(id[0]);
    }
    FirstDifferentByte(ZERO, id, 0, 0);
  }

  lemma HighBit(b: bv8)
    ensures BitSet(b, 0) <==> b >= 0x80
  {
    assert b & 0x80 != 0 <==> b >= 0x80;
  }

  /** The id 1 shares all bits but the last with the zero id. */
  lemma LastBitDiffers()
    ensures Prefix(ZERO, ZERO[ID_SIZE - 1 := 1]) == ID_BITS - 1
  {
    FirstDifferentByte(ZERO, ZERO[ID_SIZE - 1 := 1], ID_SIZE - 1, 7);
  }

  // ---------- the program's own loops ----------

  function FromBytes(bytes: seq<bv8>): (r: Result<Id, string>)
    ensures r.Ok? <==> |bytes| == ID_SIZE
    ensures r.Ok? ==> r.value == bytes
  {
    if |bytes| != ID_SIZE then Err("Wrong number of bytes") else Ok(bytes)
  }

  method Xor(a: Id, b: Id) returns (c: Id)
    ensures c == XorBytes(a, b)
  {
    var bytes: seq<bv8> := [];
    for i := 0 to ID_SIZE
      invariant |bytes| == i
      invariant forall j :: 0 <= j < i ==> bytes[j] == a[j] ^ b[j]
    {
      bytes := bytes + [a[i] ^ b[i]];
    }
    assert bytes == XorBytes(a, b);
    c := bytes;
  }

  /** The byte loop counts exactly the leading bits on which the two ids agree. */
  method MatchingPrefixBits(a: Id, b: Id) returns (n: nat)
    ensures n == Prefix(a, b)
  {
    var xored := Xor(a, b);
    n := 0;
    for i := 0 to ID_SIZE
      invariant n == 8 * i
      invariant forall j :: 0 <= j < i ==> a[j] == b[j]
    {
      var leadingZeros := LeadingZeros(xored[i]);
      NextByte(a, b, i, xored[i]);
      n := n + leadingZeros;
      if leadingZeros < 8 {
        return;
      }
    }
    assert a == b;
    PrefixLaws(a, b, a);
  }

  /** What the leading zeros of byte i of the exclusive or say once all earlier bytes agree. */
  lemma NextByte(a: Id, b: Id, i: nat, x: bv8)
    requires i < ID_SIZE && x == XorBytes(a, b)[i]
    requires forall j :: 0 <= j < i ==> a[j] == b[j]
    ensures LeadingZeros(x) < 8 ==> Prefix(a, b) == 8 * i + LeadingZeros(x)
    ensures LeadingZeros(x) == 8 ==> a[i] == b[i]
  {
    if a[i] == b[i] {
      XorToSelf(a[i]);
    } else {
      var m := FirstDifferentBit(a[i], b[i]);
      FirstDifferentByte(a, b, i, m);
    }
  }

  lemma XorToSelf(x: bv8)
    ensures LeadingZeros(x ^ x) == 8
  {
    assert x ^ x == 0;
    assert forall i :: 0 <= i < 8 ==> !BitSet(0, i);
  }

  /** Byte-wise comparison is comparison of the ids as 160-bit numbers. */
  method PartialCmp(a: Id, b: Id) returns (r: Ordering)
    ensures r == Less <==> IdValue(a) < IdValue(b)
    ensures r == Greater <==> IdValue(a) > IdValue(b)
    ensures r == Equal <==> a == b
  {
    for i := 0 to ID_SIZE
      invariant forall j :: 0 <= j < i ==> a[j] == b[j]
    {
      if a[i] < b[i] {
        FirstSmallerByteDecides(a, b, i);
        return Less;
      }
      if a[i] > b[i] {
        FirstSmallerByteDecides(b, a, i);
        return Greater;
      }
    }
    assert a == b;
    return Equal;
  }

  lemma FirstSmallerByteDecides(a: Id, b: Id, i: nat)
    requires i < ID_SIZE && a[i] < b[i]
    requires forall j :: 0 <= j < i ==> a[j] == b[j]
    ensures IdValue(a) < IdValue(b)
  {
    var n := FirstDifferentBit(a[i], b[i]);
    FirstDifferentByte(a, b, i, n);
    FirstDifferenceDecides(Bits(a), Bits(b), 8 * i + n);
  }
}
