/**
  Ids tied to IPv4 addresses and ids made to resemble others (src/common/id.rs;
  BEP 42). The checksum is a parameter: nothing here depends on which it is.
 */
module IpIds {
  import opened Wrappers
  import opened Ids
  import opened Nodes

  type Checksum = bv32 -> Octets4

  /** The part of an id that its owner's address decides, and the byte that seeds it. */
  datatype IdPrefixMagic = IdPrefixMagic(p0: bv8, p1: bv8, p2: bv8, suffix: bv8)

  predicate SameMagic(a: IdPrefixMagic, b: IdPrefixMagic) {
    a.p0 == b.p0 && a.p1 == b.p1 && a.p2 & 0xf8 == b.p2 & 0xf8 && a.suffix == b.suffix
  }

  function MagicOfId(id: Id): IdPrefixMagic {
    IdPrefixMagic(id[0], id[1], id[2], id[ID_SIZE - 1])
  }

  function IpInt(ip: Octets4): bv32 {
    (ip[0] as bv32 << 24) | (ip[1] as bv32 << 16) | (ip[2] as bv32 << 8) | (ip[3] as bv32)
  }

  function MagicOfIp(crc: Checksum, ip: Octets4, r: bv8): IdPrefixMagic {
    var nonsense := (IpInt(ip) & 0x030f3fff) | (r as bv32 << 29);
    var sum := crc(nonsense);
    IdPrefixMagic(sum[0], sum[1], sum[2], r)
  }

  predicate IsLoopback(ip: Octets4) {
    ip[0] == 127
  }

  function IsValidForIp(crc: Checksum, id: Id, ip: Octets4): bool {
    IsLoopback(ip) || SameMagic(MagicOfIp(crc, ip, id[ID_SIZE - 1]), MagicOfId(id))
  }

  /** A new id for an address; r and the 17 bytes of noise are what the random generator gives. */
  method FromIp(crc: Checksum, ip: Octets4, r: bv8, noise: seq<bv8>) returns (id: Id)
    requires |noise| == 17
    ensures id == NewId(crc, ip, r, noise)
    ensures var sum := crc(BigEndian(Counted(ip, r)));
            && id[0] == sum[0] && id[1] == sum[1] && id[2] == (sum[2] & 0xf8) | (noise[0] & 0x07)
            && (forall i :: 3 <= i < 19 ==> id[i] == noise[i - 2])
            && id[19] == r
    ensures IsValidForIp(crc, id, ip)
  {
    var magic := MagicOfIp(crc, ip, r);
    var third := ThirdByte(magic, noise[0]);
    var bytes: seq<bv8> := seq(ID_SIZE, _ => 0);
    bytes := bytes[0 := magic.p0];
    bytes := bytes[1 := magic.p1];
    bytes := bytes[2 := third];
    for i := 3 to ID_SIZE - 1
      invariant |bytes| == ID_SIZE
      invariant bytes[0] == magic.p0 && bytes[1] == magic.p1 && bytes[2] == third
      invariant forall j :: 3 <= j < i ==> bytes[j] == noise[j - 2]
    {
      bytes := bytes[i := noise[i - 2]];
    }
    bytes := bytes[ID_SIZE - 1 := r];
    assert bytes == Assembled(magic, third, noise, r);
    id := bytes;
    NewIdIsValid(crc, ip, r, noise);
    MagicIsChecksumOfCounted(crc, ip, r);
  }

  /** The magic of an address with three bits of noise in the low bits. */
  function ThirdByte(magic: IdPrefixMagic, noise: bv8): bv8 {
    (magic.p2 & 0xf8) | (noise & 0x7)
  }

  function Assembled(magic: IdPrefixMagic, third: bv8, noise: seq<bv8>, r: bv8): (id: Id)
    requires |noise| == 17
  {
    [magic.p0, magic.p1, third] + noise[1..] + [r]
  }

  function NewId(crc: Checksum, ip: Octets4, r: bv8, noise: seq<bv8>): (id: Id)
    requires |noise| == 17
  {
    var magic := MagicOfIp(crc, ip, r);
    Assembled(magic, ThirdByte(magic, noise[0]), noise, r)
  }

  /** Every id generated for an address is valid for it, whatever the noise and the checksum. */
  lemma NewIdIsValid(crc: Checksum, ip: Octets4, r: bv8, noise: seq<bv8>)
    requires |noise| == 17
    ensures IsValidForIp(crc, NewId(crc, ip, r, noise), ip)
  {
    NoiseLeavesMagic(MagicOfIp(crc, ip, r).p2, noise[0]);
  }

  lemma NoiseLeavesMagic(p: bv8, noise: bv8)
    ensures ((p & 0xf8) | (noise & 0x7)) & 0xf8 == p & 0xf8
  {
  }

  // ---------- validity as a shared prefix ----------

  lemma MaskedEqual(x: bv8, y: bv8)
    ensures x & 0xf8 == y & 0xf8 <==> (x ^ y) & 0xf8 == 0
  {
  }

  lemma FiveZeroBits(z: bv8)
    ensures z & 0xf8 == 0 <==>
              z & 0x80 == 0 && z & 0x40 == 0 && z & 0x20 == 0 && z & 0x10 == 0 && z & 0x08 == 0
  {
  }

  /** The five bits that the mask 0xf8 selects. */
  predicate FiveAgree(x: bv8, y: bv8) {
    && BitSet(x, 0) == BitSet(y, 0) && BitSet(x, 1) == BitSet(y, 1) && BitSet(x, 2) == BitSet(y, 2)
    && BitSet(x, 3) == BitSet(y, 3) && BitSet(x, 4) == BitSet(y, 4)
  }

  lemma FiveBits(x: bv8, y: bv8)
    ensures x & 0xf8 == y & 0xf8 <==> FiveAgree(x, y)
  {
    MaskedEqual(x, y);
    FiveZeroBits(x ^ y);
    FirstFive(x ^ y);
    XorBit(x, y, 0);
    XorBit(x, y, 1);
    XorBit(x, y, 2);
    XorBit(x, y, 3);
    XorBit(x, y, 4);
  }

  lemma FirstFive(z: bv8)
    ensures (z & 0x80 == 0 && z & 0x40 == 0 && z & 0x20 == 0 && z & 0x10 == 0 && z & 0x08 == 0)
       <==> !BitSet(z, 0) && !BitSet(z, 1) && !BitSet(z, 2) && !BitSet(z, 3) && !BitSet(z, 4)
  {
  }

  lemma EqualBytesEqualBits(a: Id, b: Id, n: nat)
    requires n <= ID_SIZE && forall i :: 0 <= i < n ==> a[i] == b[i]
    ensures Prefix(a, b) >= 8 * n
  {
    var p := Prefix(a, b);
    if p < 8 * n {
      BitsAt(a, p);
      BitsAt(b, p);
      assert false;
    }
  }

  lemma ByteFromBits(a: Id, b: Id, i: nat)
    requires i < ID_SIZE && Prefix(a, b) >= 8 * i + 8
    ensures a[i] == b[i]
  {
    if a[i] != b[i] {
      var n := FirstDifferentBit(a[i], b[i]);
      DifferentBitEndsPrefix(a, b, i, n);
    }
  }

  lemma DifferentBitEndsPrefix(a: Id, b: Id, i: nat, n: nat)
    requires i < ID_SIZE && n < 8 && BitSet(a[i], n) != BitSet(b[i], n)
    ensures Prefix(a, b) <= 8 * i + n
  {
    BitsAt(a, 8 * i + n);
    BitsAt(b, 8 * i + n);
    assert (8 * i + n) / 8 == i && (8 * i + n) % 8 == n;
  }

  lemma SharedBitsAgree(a: Id, b: Id)
    requires Prefix(a, b) >= 21
    ensures a[0] == b[0] && a[1] == b[1] && FiveAgree(a[2], b[2])
  {
    ByteFromBits(a, b, 0);
    ByteFromBits(a, b, 1);
    forall i | 0 <= i < 5 ensures BitSet(a[2], i) == BitSet(b[2], i) {
      if BitSet(a[2], i) != BitSet(b[2], i) {
        DifferentBitEndsPrefix(a, b, 2, i);
      }
    }
  }

  lemma AgreeingBitsAreShared(a: Id, b: Id)
    requires a[0] == b[0] && a[1] == b[1] && FiveAgree(a[2], b[2])
    ensures Prefix(a, b) >= 21
  {
    EqualBytesEqualBits(a, b, 2);
    var p := Prefix(a, b);
    if p < 21 {
      BitsAt(a, p);
      BitsAt(b, p);
      assert false;
    }
  }

  /** Agreeing on two bytes and five bits more is sharing 21 bits. */
  lemma TwentyOneBits(a: Id, b: Id)
    ensures Prefix(a, b) >= 21 <==> a[0] == b[0] && a[1] == b[1] && a[2] & 0xf8 == b[2] & 0xf8
  {
    FiveBits(a[2], b[2]);
    if Prefix(a, b) >= 21 {
      SharedBitsAgree(a, b);
    } else if a[0] == b[0] && a[1] == b[1] && FiveAgree(a[2], b[2]) {
      AgreeingBitsAreShared(a, b);
    }
  }

  /**
    An id is valid for an address exactly if the address is a loopback one, or the id shares
    21 bits with an id generated for that address from the same last byte.
   */
  lemma ValidityIsASharedPrefix(crc: Checksum, id: Id, ip: Octets4, noise: seq<bv8>)
    requires |noise| == 17
    ensures IsValidForIp(crc, id, ip) <==>
            ip[0] == 127 || Prefix(id, NewId(crc, ip, id[ID_SIZE - 1], noise)) >= 21
  {
    var r := id[ID_SIZE - 1];
    var model := NewId(crc, ip, r, noise);
    NoiseLeavesMagic(MagicOfIp(crc, ip, r).p2, noise[0]);
    TwentyOneBits(id, model);
  }

  // ---------- what the checksum is taken of ----------

  /** The part of an address that counts, two to eight bits of each octet, with three bits of r before it. */
  function Counted(ip: Octets4, r: bv8): (b: seq<bv8>)
    ensures |b| == 4
  {
    [(ip[0] & 0x03) | (r << 5), ip[1] & 0x0f, ip[2] & 0x3f, ip[3]]
  }

  /** Four bytes as a number, the most significant first. */
  function BigEndian(b: seq<bv8>): bv32
    requires |b| == 4
  {
    0x100_0000 * (b[0] as bv32) + 0x1_0000 * (b[1] as bv32) + 0x100 * (b[2] as bv32) + (b[3] as bv32)
  }

  lemma CountedBits(a: bv8, b: bv8, c: bv8, d: bv8, r: bv8)
    ensures (((a as bv32 << 24) | (b as bv32 << 16) | (c as bv32 << 8) | (d as bv32)) & 0x030f3fff)
            | (r as bv32 << 29) ==
            0x100_0000 * (((a & 0x03) | (r << 5)) as bv32) + 0x1_0000 * ((b & 0x0f) as bv32)
            + 0x100 * ((c & 0x3f) as bv32) + (d as bv32)
  {
  }

  /** The prefix is the first three bytes of the checksum of just that part. */
  lemma MagicIsChecksumOfCounted(crc: Checksum, ip: Octets4, r: bv8)
    ensures var sum := crc(BigEndian(Counted(ip, r)));
            MagicOfIp(crc, ip, r) == IdPrefixMagic(sum[0], sum[1], sum[2], r)
  {
    CountedBits(ip[0], ip[1], ip[2], ip[3], r);
  }

  /** Addresses that differ only in what does not count have the same valid ids, loopback addresses aside. */
  lemma OnlyCountedBitsMatter(crc: Checksum, id: Id, ip: Octets4, ip': Octets4)
    requires ip[0] & 0x03 == ip'[0] & 0x03 && ip[1] & 0x0f == ip'[1] & 0x0f
    requires ip[2] & 0x3f == ip'[2] & 0x3f && ip[3] == ip'[3] && ip[0] != 127 && ip'[0] != 127
    ensures IsValidForIp(crc, id, ip) <==> IsValidForIp(crc, id, ip')
  {
    var r := id[ID_SIZE - 1];
    MagicIsChecksumOfCounted(crc, ip, r);
    MagicIsChecksumOfCounted(crc, ip', r);
    assert Counted(ip, r) == Counted(ip', r);
  }

  // ---------- ids made to resemble others ----------

  /** An id that starts with the given number of bytes of id and goes on at random. */
  method MakeMutant(id: Id, identicalBytes: nat, random: Id) returns (r: Result<Id, string>)
    ensures r.Ok? <==> 0 < identicalBytes < ID_SIZE
    ensures r.Ok? ==> r.value == id[..identicalBytes] + random[identicalBytes..]
    ensures r.Ok? ==> Prefix(id, r.value) >= 8 * identicalBytes
  {
    if identicalBytes == 0 || identicalBytes >= ID_SIZE {
      return Err("identical_bytes must be in range (0, ID_SIZE)");
    }
    var mutant: Id := random;
    for i := 0 to identicalBytes
      invariant mutant == id[..i] + random[i..]
    {
      mutant := mutant[i := id[i]];
    }
    EqualBytesEqualBits(id, mutant, identicalBytes);
    r := Ok(mutant);
  }
}
