/** What well-formed UTF-8 is (table 3-6 of the Unicode standard): the encodings of scalar values, in a row. */
module Utf8 {
  import opened Messages

  /** A code point that is no surrogate. */
  predicate Scalar(c: bv32) {
    c < 0xd800 || 0xe000 <= c < 0x11_0000
  }

  /** The last six bits after the given ones, as a continuation byte. */
  function Tail(c: bv32): bv8 {
    (0x80 | (c & 0x3f)) as bv8
  }

  function EncodeScalar(c: bv32): (b: Bytes)
    requires Scalar(c)
    ensures b != []
  {
    if c < 0x80 then [c as bv8]
    else if c < 0x800 then [(0xc0 | (c >> 6)) as bv8, Tail(c)]
    else if c < 0x1_0000 then [(0xe0 | (c >> 12)) as bv8, Tail(c >> 6), Tail(c)]
    else [(0xf0 | (c >> 18)) as bv8, Tail(c >> 12), Tail(c >> 6), Tail(c)]
  }

  function Encode(cs: seq<bv32>): Bytes
    requires forall i :: 0 <= i < |cs| ==> Scalar(cs[i])
  {
    if cs == [] then [] else EncodeScalar(cs[0]) + Encode(cs[1..])
  }

  // ---------- encodings are well formed ----------

  lemma TailContinues(c: bv32)
    ensures Continuation(Tail(c))
  {
  }

  lemma HeadOfTwo(c: bv32)
    requires 0x80 <= c < 0x800
    ensures 0xc2 <= (0xc0 | (c >> 6)) as bv8 <= 0xdf
  {
  }

  lemma HeadOfThree(c: bv32)
    requires 0x800 <= c < 0x1_0000 && Scalar(c)
    ensures var h, t := (0xe0 | (c >> 12)) as bv8, Tail(c >> 6);
            && 0xe0 <= h <= 0xef
            && (h == 0xe0 ==> 0xa0 <= t <= 0xbf) && (h == 0xed ==> 0x80 <= t <= 0x9f)
  {
  }

  lemma HeadOfFour(c: bv32)
    requires 0x1_0000 <= c < 0x11_0000
    ensures var h, t := (0xf0 | (c >> 18)) as bv8, Tail(c >> 12);
            && 0xf0 <= h <= 0xf4
            && (h == 0xf0 ==> 0x90 <= t <= 0xbf) && (h == 0xf4 ==> 0x80 <= t <= 0x8f)
  {
  }

  lemma ScalarThenRest(c: bv32, rest: Bytes)
    requires Scalar(c) && IsUtf8(rest)
    ensures IsUtf8(EncodeScalar(c) + rest)
  {
    var b := EncodeScalar(c) + rest;
    TailContinues(c);
    TailContinues(c >> 6);
    TailContinues(c >> 12);
    if c < 0x80 {
      assert b[1..] == rest;
    } else if c < 0x800 {
      HeadOfTwo(c);
      assert b[2..] == rest;
    } else if c < 0x1_0000 {
      HeadOfThree(c);
      assert b[3..] == rest;
    } else {
      HeadOfFour(c);
      assert b[4..] == rest;
    }
  }

  lemma {:induction false} EncodingIsUtf8(cs: seq<bv32>)
    requires forall i :: 0 <= i < |cs| ==> Scalar(cs[i])
    ensures IsUtf8(Encode(cs))
  {
    if cs != [] {
      EncodingIsUtf8(cs[1..]);
      ScalarThenRest(cs[0], Encode(cs[1..]));
    }
  }

  // ---------- what is well formed is an encoding ----------

  /** The six bits that a continuation byte carries. */
  function Low(t: bv8): bv32 {
    (t & 0x3f) as bv32
  }

  lemma TwoBytes(h: bv8, t: bv8) returns (c: bv32)
    requires 0xc2 <= h <= 0xdf && Continuation(t)
    ensures Scalar(c) && EncodeScalar(c) == [h, t]
  {
    c := ((h & 0x1f) as bv32 << 6) | Low(t);
  }

  function Three(h: bv8, t: bv8, u: bv8): bv32 {
    ((h & 0x0f) as bv32 << 12) | (Low(t) << 6) | Low(u)
  }

  lemma ThreeInRange(h: bv8, t: bv8, u: bv8)
    requires 0xe0 <= h <= 0xef && Continuation(t) && Continuation(u)
    requires (h == 0xe0 ==> 0xa0 <= t) && (h == 0xed ==> t <= 0x9f)
    ensures 0x800 <= Three(h, t, u) < 0x1_0000 && Scalar(Three(h, t, u))
  {
  }

  lemma ThreeHead(h: bv8, t: bv8, u: bv8)
    requires 0xe0 <= h <= 0xef
    ensures 0xe0 | (Three(h, t, u) >> 12) == h as bv32
  {
  }

  lemma ThreeTails(h: bv8, t: bv8, u: bv8)
    requires Continuation(t) && Continuation(u)
    ensures Tail(Three(h, t, u) >> 6) == t && Tail(Three(h, t, u)) == u
  {
  }

  lemma ThreeBytes(h: bv8, t: bv8, u: bv8) returns (c: bv32)
    requires 0xe0 <= h <= 0xef && Continuation(t) && Continuation(u)
    requires (h == 0xe0 ==> 0xa0 <= t) && (h == 0xed ==> t <= 0x9f)
    ensures Scalar(c) && EncodeScalar(c) == [h, t, u]
  {
    c := Three(h, t, u);
    ThreeInRange(h, t, u);
    ThreeHead(h, t, u);
    ThreeTails(h, t, u);
  }

  function Four(h: bv8, t: bv8, u: bv8, v: bv8): bv32 {
    ((h & 0x07) as bv32 << 18) | (Low(t) << 12) | (Low(u) << 6) | Low(v)
  }

  lemma FourInRange(h: bv8, t: bv8, u: bv8, v: bv8)
    requires 0xf0 <= h <= 0xf4 && Continuation(t) && Continuation(u) && Continuation(v)
    requires (h == 0xf0 ==> 0x90 <= t) && (h == 0xf4 ==> t <= 0x8f)
    ensures 0x1_0000 <= Four(h, t, u, v) < 0x11_0000
  {
  }

  lemma FourHead(h: bv8, t: bv8, u: bv8, v: bv8)
    requires 0xf0 <= h <= 0xf4
    ensures 0xf0 | (Four(h, t, u, v) >> 18) == h as bv32
  {
  }

  lemma FourTails(h: bv8, t: bv8, u: bv8, v: bv8)
    requires Continuation(t) && Continuation(u) && Continuation(v)
    ensures Tail(Four(h, t, u, v) >> 12) == t && Tail(Four(h, t, u, v) >> 6) == u && Tail(Four(h, t, u, v)) == v
  {
  }

  lemma FourBytes(h: bv8, t: bv8, u: bv8, v: bv8) returns (c: bv32)
    requires 0xf0 <= h <= 0xf4 && Continuation(t) && Continuation(u) && Continuation(v)
    requires (h == 0xf0 ==> 0x90 <= t) && (h == 0xf4 ==> t <= 0x8f)
    ensures Scalar(c) && EncodeScalar(c) == [h, t, u, v]
  {
    c := Four(h, t, u, v);
    FourInRange(h, t, u, v);
    FourHead(h, t, u, v);
    FourTails(h, t, u, v);
  }

  lemma OneByte(h: bv8) returns (c: bv32)
    requires h <= 0x7f
    ensures Scalar(c) && EncodeScalar(c) == [h]
  {
    c := h as bv32;
  }

  /** The scalar value that a well-formed string begins with, and the number of its bytes. */
  lemma FirstScalar(b: Bytes) returns (c: bv32, n: nat)
    requires IsUtf8(b) && b != []
    ensures 0 < n <= |b| && Scalar(c) && EncodeScalar(c) == b[..n] && IsUtf8(b[n..])
  {
    if b[0] <= 0x7f {
      n := 1;
      c := OneByte(b[0]);
      assert b[..1] == [b[0]];
    } else if 0xc2 <= b[0] <= 0xdf {
      n := 2;
      c := TwoBytes(b[0], b[1]);
      assert b[..2] == [b[0], b[1]];
    } else if 0xe0 <= b[0] <= 0xef {
      n := 3;
      c := ThreeBytes(b[0], b[1], b[2]);
      assert b[..3] == [b[0], b[1], b[2]];
    } else {
      n := 4;
      c := FourBytes(b[0], b[1], b[2], b[3]);
      assert b[..4] == [b[0], b[1], b[2], b[3]];
    }
  }

  lemma {:induction false} Utf8IsEncoding(b: Bytes) returns (cs: seq<bv32>)
    requires IsUtf8(b)
    ensures (forall i :: 0 <= i < |cs| ==> Scalar(cs[i])) && Encode(cs) == b
    decreases |b|
  {
    if b == [] {
      cs := [];
    } else {
      var c, n := FirstScalar(b);
      var rest := Utf8IsEncoding(b[n..]);
      cs := [c] + rest;
      assert b == b[..n] + b[n..];
    }
  }

  ghost predicate Encodes(cs: seq<bv32>, b: Bytes) {
    (forall i :: 0 <= i < |cs| ==> Scalar(cs[i])) && Encode(cs) == b
  }

  /** A string is taken for UTF-8 exactly if it encodes scalar values in a row. */
  lemma Utf8ExactlyEncodings(b: Bytes)
    ensures IsUtf8(b) <==> exists cs :: Encodes(cs, b)
  {
    if IsUtf8(b) {
      var cs := Utf8IsEncoding(b);
      assert Encodes(cs, b);
    }
    if cs :| Encodes(cs, b) {
      EncodingIsUtf8(cs);
    }
  }
}
