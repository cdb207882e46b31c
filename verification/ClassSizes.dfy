/** How many ids share just so many bits with an id: at most half of all ids, and that many do. */
module ClassSizes {
  import opened Ids

  lemma {:induction false} Pow2Grows(m: nat, n: nat)
    requires m <= n
    ensures Pow2(m) <= Pow2(n)
    decreases n
  {
    if m < n {
      Pow2Grows(m, n - 1);
    }
  }

  /** Ids that part from t at the same bit agree on that bit too. */
  lemma ClassSharesMore(t: Id, a: Id, b: Id, d: nat)
    requires d < ID_BITS && Prefix(t, a) == d && Prefix(t, b) == d
    ensures Prefix(a, b) > d
  {
    var n := CommonPrefix(Bits(a), Bits(b));
    if n <= d {
      assert false;
    }
  }

  /** No more than 2^(159-d) ids share just d bits with t. */
  lemma ClassAtMost(t: Id, ids: set<Id>, d: nat)
    requires d < ID_BITS && forall id :: id in ids ==> Prefix(t, id) == d
    ensures |ids| <= Pow2(ID_BITS - 1 - d)
  {
    if a :| a in ids {
      var rest := ids - {a};
      forall b | b in rest ensures Prefix(a, b) >= d + 1 {
        ClassSharesMore(t, a, b, d);
      }
      FewIdsSharePrefix(a, rest, d + 1);
      assert |ids| == |rest| + 1;
    }
  }

  // ---------- the largest class ----------

  /** Bit p of an id, counted from the first. */
  predicate HasBit(id: Id, p: nat)
    requires p < ID_BITS
  {
    BitSet(id[p / 8], p % 8)
  }

  function WithBit(id: Id, p: nat): (r: Id)
    requires p < ID_BITS
  {
    id[p / 8 := id[p / 8] | Mask(p % 8)]
  }

  /** The first bit of id is set, and those after it up to bit p are not. */
  predicate FreeFrom(id: Id, p: nat)
    requires p <= ID_BITS
  {
    id[0] >= 0x80 && forall q :: 1 <= q < p ==> !HasBit(id, q)
  }

  lemma OrSets(b: bv8, m: bv8)
    ensures m != 0 ==> (b | m) & m != 0
    ensures b >= 0x80 ==> b | m >= 0x80
  {
  }

  lemma OrKeeps(b: bv8, m: bv8, n: bv8)
    requires m & n == 0
    ensures (b | m) & n == b & n
  {
  }

  lemma OrInjective(b: bv8, c: bv8, m: bv8)
    requires b & m == 0 && c & m == 0 && b | m == c | m
    ensures b == c
  {
  }

  lemma MasksApart(i: nat, j: nat)
    requires i < 8 && j < 8 && i != j
    ensures Mask(i) & Mask(j) == 0
  {
  }

  lemma OtherBitsStay(id: Id, p: nat, q: nat)
    requires p < ID_BITS && q < ID_BITS && p != q
    ensures HasBit(WithBit(id, p), q) == HasBit(id, q)
  {
    if q / 8 == p / 8 {
      MasksApart(p % 8, q % 8);
      OrKeeps(id[p / 8], Mask(p % 8), Mask(q % 8));
    }
  }

  lemma WithBitSets(id: Id, p: nat)
    requires 1 <= p < ID_BITS && FreeFrom(id, p + 1)
    ensures HasBit(WithBit(id, p), p) && FreeFrom(WithBit(id, p), p)
  {
    OrSets(id[p / 8], Mask(p % 8));
    forall q | 1 <= q < p ensures !HasBit(WithBit(id, p), q) {
      OtherBitsStay(id, p, q);
    }
  }

  lemma WithBitInjective(a: Id, b: Id, p: nat)
    requires p < ID_BITS && !HasBit(a, p) && !HasBit(b, p) && WithBit(a, p) == WithBit(b, p)
    ensures a == b
  {
    OrAtInjective(a, b, p / 8, Mask(p % 8));
  }

  lemma OrAtInjective(a: Id, b: Id, i: nat, m: bv8)
    requires i < ID_SIZE && a[i] & m == 0 && b[i] & m == 0 && a[i := a[i] | m] == b[i := b[i] | m]
    ensures a == b
  {
    SameWritten(a, b, i, a[i] | m, b[i] | m);
    OrInjective(a[i], b[i], m);
  }

  lemma SameWritten(a: Id, b: Id, i: nat, x: bv8, y: bv8)
    requires i < ID_SIZE && a[i := x] == b[i := y]
    ensures x == y && (a[i] == b[i] ==> a == b)
  {
    assert x == a[i := x][i] == b[i := y][i] == y;
    forall j | 0 <= j < ID_SIZE && j != i ensures a[j] == b[j] {
      assert a[j] == a[i := x][j] == b[i := y][j] == b[j];
    }
  }

  lemma {:induction false} AllWithBit(ids: set<Id>, p: nat) returns (images: set<Id>)
    requires 1 <= p < ID_BITS && forall id :: id in ids ==> FreeFrom(id, p + 1)
    ensures |images| == |ids|
    ensures forall r :: r in images <==> exists id :: id in ids && r == WithBit(id, p)
  {
    if ids == {} {
      images := {};
    } else {
      var a :| a in ids;
      var rest := AllWithBit(ids - {a}, p);
      forall id | id in ids - {a} ensures WithBit(id, p) != WithBit(a, p) {
        assert !HasBit(a, p) && !HasBit(id, p);
        if WithBit(id, p) == WithBit(a, p) {
          WithBitInjective(id, a, p);
        }
      }
      images := rest + {WithBit(a, p)};
      assert |ids| == |ids - {a}| + 1;
    }
  }

  /** 2^n ids whose first bit is set and whose others are free from bit 160-n on. */
  lemma {:induction false} FreeIds(n: nat) returns (ids: set<Id>)
    requires n < ID_BITS
    ensures |ids| == Pow2(n) && forall id :: id in ids ==> FreeFrom(id, ID_BITS - n)
  {
    if n == 0 {
      OnlyFirstBit();
      ids := {FirstByteId(0x80)};
    } else {
      var p := ID_BITS - n;
      var half := FreeIds(n - 1);
      var other := AllWithBit(half, p);
      forall r | r in other ensures r !in half && FreeFrom(r, p) {
        var id :| id in half && r == WithBit(id, p);
        WithBitSets(id, p);
      }
      assert half !! other;
      ids := half + other;
    }
  }

  lemma OnlyFirstBit()
    ensures FreeFrom(FirstByteId(0x80), ID_BITS)
  {
    forall q | 1 <= q < ID_BITS ensures !HasBit(FirstByteId(0x80), q) {
      if q < 8 {
        MasksApart(0, q);
      }
    }
  }

  /** Half of all ids share no bit with the zero id. */
  lemma LargestClass() returns (ids: set<Id>)
    ensures |ids| == Pow2(ID_BITS - 1) && forall id :: id in ids ==> Prefix(ZERO, id) == 0
  {
    ids := FreeIds(ID_BITS - 1);
    forall id | id in ids ensures Prefix(ZERO, id) == 0 {
      HighBitDiffers(id);
    }
  }
}
