/**
 What the bytes of a number on the wire are, position by position, and which bytes are a number.
 */
module Numerals {
  import opened Results
  import opened Wire
  import opened Records
  import opened Bits

  // ---------- Digits ----------

  lemma DivideTwice(v: nat, a: nat, b: nat)
    requires a > 0 && b > 0
    ensures a * b > 0 && (v / a) / b == v / (a * b)
  {
    var x, y := v / a, v % a;
    var q, z := x / b, x % b;
    Regroup(v, a, b, q, z, y);
    QuotientUnique(v, a * b, q, a * z + y);
  }

  lemma Regroup(v: nat, a: nat, b: nat, q: nat, z: nat, y: nat)
    requires a > 0 && b > 0 && v == a * (b * q + z) + y && z < b && y < a
    ensures 0 <= a * z + y < a * b && v == a * b * q + (a * z + y)
  {
    MulDistributes(a, b * q, z);
    MulAssociates(a, b, q);
    MulDistributes(a, b, 1);
    MulGrows(a, z, b - 1);
    MulGrows(a, 0, z);
  }

  lemma QuotientUnique(v: nat, d: nat, q: nat, r: nat)
    requires d > 0 && v == d * q + r && r < d
    ensures v / d == q
  {
    DivModUnique(v, d, q, r);
    var q' := v / d;
    MulDistributes(d, q', q);
    if q' > q {
      MulGrows(d, 1, q' - q);
    } else if q' < q {
      MulGrows(d, q' - q, -1);
    }
  }

  lemma {:induction false} Pow256Positive(n: nat)
    ensures Pow256(n) > 0
  {
    if n > 0 {
      Pow256Positive(n - 1);
    }
  }

  lemma {:induction false} Pow128Positive(n: nat)
    ensures Pow128(n) > 0
  {
    if n > 0 {
      Pow128Positive(n - 1);
    }
  }

  // ---------- Fixed-width numbers ----------

  /** The byte at position i is worth 256 to the power i: the lowest comes first. */
  lemma {:induction false} LittleAt(v: nat, width: nat, i: nat)
    requires i < width
    ensures Pow256(i) > 0 && Little(v, width)[i] == v / Pow256(i) % 256
  {
    Pow256Positive(i);
    if i > 0 {
      Pow256Positive(i - 1);
      LittleAt(v / 256, width - 1, i - 1);
      DivideTwice(v, 256, Pow256(i - 1));
    }
  }

  /** Reading and writing again gives the bytes back. */
  lemma {:induction false} LittleInverse(bs: Bytes)
    ensures Little(FromLittle(bs), |bs|) == bs
  {
    if bs != [] {
      LittleInverse(bs[1..]);
      assert FromLittle(bs) % 256 == bs[0] && FromLittle(bs) / 256 == FromLittle(bs[1..]);
    }
  }

  /** So reading takes each byte for what it is worth as well. */
  lemma FromLittleAt(bs: Bytes, i: nat)
    requires i < |bs|
    ensures Pow256(i) > 0 && FromLittle(bs) / Pow256(i) % 256 == bs[i]
  {
    LittleInverse(bs);
    LittleAt(FromLittle(bs), |bs|, i);
  }

  // ---------- Varints ----------

  /** Seven bits a byte, the lowest first; all bytes but the last have the top bit set; and there
      are no more bytes than the number needs. */
  lemma {:induction false} VarintAt(v: nat, i: nat)
    requires i < |Varint(v)|
    ensures Pow128(i) > 0 && Varint(v)[i] % 128 == v / Pow128(i) % 128
    ensures Varint(v)[i] >= 128 <==> i < |Varint(v)| - 1
    ensures i > 0 ==> v >= Pow128(i)
  {
    Pow128Positive(i);
    if i > 0 {
      Pow128Positive(i - 1);
      VarintAt(v / 128, i - 1);
      DivideTwice(v, 128, Pow128(i - 1));
    }
  }

  /** The first byte with its top bit clear is at n. */
  predicate EndsAt(d: Bytes, n: nat) {
    n < |d| && d[n] < 128 && forall i | 0 <= i < n :: d[i] >= 128
  }

  /** The bytes at hand all have their top bit set, ten of them or all there are. */
  predicate NeverEnds(d: Bytes, most: nat) {
    forall i | 0 <= i < |d| && i < most :: d[i] >= 128
  }

  /** The bytes up to the one that ends the varint spell v, seven bits each, the lowest first. */
  predicate Spells(d: Bytes, v: nat, n: nat) {
    n > 0 && EndsAt(d, n - 1) && v < Pow128(n)
    && forall i | 0 <= i < n :: Pow128(i) > 0 && v / Pow128(i) % 128 == d[i] % 128
  }

  lemma {:induction false} ReadVarintFrom(d: Bytes, k: nat)
    requires k <= 10
    ensures
      var r := ReadVarint(d, 7 * k);
      if r.Ok? then r.value.1 + k <= 10 && Spells(d, r.value.0, r.value.1)
      else NeverEnds(d, 10 - k) && r.error == if |d| >= 10 - k then IntOverflow else UnexpectedEOF
    decreases 10 - k
  {
    hide Spells;
    if k < 10 && d != [] {
      if d[0] >= 128 {
        ReadVarintFrom(d[1..], k + 1);
        var r := ReadVarint(d[1..], 7 * (k + 1));
        if r.Ok? {
          SpellsBefore(d, r.value.0, r.value.1);
        } else {
          NeverEndsBefore(d, 10 - k);
        }
      } else {
        OneByteSpells(d);
      }
    }
  }

  /** A varint is read exactly when one of the first ten bytes has its top bit clear; it takes the
      bytes up to that one and spells their seven-bit groups.  Otherwise it is too long or there is
      not enough of it. */
  lemma ReadVarintIff(d: Bytes)
    ensures
      var r := ReadVarint(d);
      if r.Ok? then r.value.1 <= 10 && Spells(d, r.value.0, r.value.1)
      else NeverEnds(d, 10) && r.error == if |d| >= 10 then IntOverflow else UnexpectedEOF
  {
    hide Spells, NeverEnds;
    ReadVarintFrom(d, 0);
  }

  lemma OneByteSpells(d: Bytes)
    requires d != [] && d[0] < 128
    ensures Spells(d, d[0], 1)
  {
    assert Pow128(0) == 1 && Pow128(1) == 128;
  }

  lemma NeverEndsBefore(d: Bytes, most: nat)
    requires d != [] && d[0] >= 128 && most > 0 && NeverEnds(d[1..], most - 1)
    ensures NeverEnds(d, most)
  {
    forall i | 1 <= i < |d| && i < most ensures d[i] >= 128 {
      assert d[i] == d[1..][i - 1];
    }
  }

  lemma SpellsBefore(d: Bytes, w: nat, m: nat)
    requires d != [] && d[0] >= 128 && Spells(d[1..], w, m)
    ensures Spells(d, d[0] - 128 + 128 * w, m + 1)
  {
    hide Pow128;
    var v := d[0] - 128 + 128 * w;
    assert Pow128(m + 1) == 128 * Pow128(m) by { Pow128Next(m); }
    assert EndsAt(d, m) by {
      assert forall i | 1 <= i < |d| :: d[i] == d[1..][i - 1];
    }
    forall i | 0 <= i < m + 1 ensures Pow128(i) > 0 && v / Pow128(i) % 128 == d[i] % 128 {
      GroupAt(d, w, m, i);
    }
  }

  lemma Pow128Next(n: nat)
    ensures Pow128(n + 1) == 128 * Pow128(n)
  {}

  lemma GroupAt(d: Bytes, w: nat, m: nat, i: nat)
    requires d != [] && d[0] >= 128 && i <= m < |d|
    requires forall j | 0 <= j < m :: Pow128(j) > 0 && w / Pow128(j) % 128 == d[1..][j] % 128
    ensures Pow128(i) > 0 && (d[0] - 128 + 128 * w) / Pow128(i) % 128 == d[i] % 128
  {
    var v := d[0] - 128 + 128 * w;
    Pow128Positive(i);
    if i > 0 {
      Pow128Positive(i - 1);
      DivideTwice(v, 128, Pow128(i - 1));
      assert v / 128 == w && d[1..][i - 1] == d[i];
    }
  }

  // ---------- Go's conversions ----------

  /** Each conversion keeps the low bits, and its range does the rest. */
  lemma ConversionsKeepLowBits(x: int)
    ensures SameLowBits(x, ToUint64(x), TWO_64) && SameLowBits(x, ToInt64(x), TWO_64)
    ensures SameLowBits(x, ToUint32(x), TWO_32) && SameLowBits(x, ToInt32(x), TWO_32)
  {
    hide SameLowBits;
    ModSame(x, TWO_64);
    ModSame(x, TWO_32);
  }

  ghost predicate SameLowBits(x: int, y: int, m: nat) {
    exists q: int :: DifferBy(x, y, m, q)
  }

  predicate DifferBy(x: int, y: int, m: nat, q: int) {
    x - y == m * q
  }

  lemma ModSame(x: int, m: nat)
    requires m > 0
    ensures SameLowBits(x, x % m, m) && SameLowBits(x, x % m - m, m)
  {
    assert DifferBy(x, x % m, m, x / m);
    MulDistributes(m, x / m, -1);
    assert DifferBy(x, x % m - m, m, x / m + 1);
  }

  // ---------- What is refused ----------

  /** The refusals of the skip: a wire type that does not exist, the end of a group that has not
      begun, and a length that does not fit an int. */
  lemma SkipRefuses(num: nat, wireType: nat, length: Uint64, rest: Bytes, depth: nat)
    requires LegalNumber(num) && wireType < 8
    ensures wireType > 5 ==> SkipOne(Tag(num, wireType) + rest, depth) == Err(IllegalWireType)
    ensures wireType == 4 && depth == 0 ==> SkipOne(Tag(num, wireType) + rest, depth) == Err(UnexpectedEndOfGroup)
    ensures wireType == 2 && length >= TWO_63 ==>
              SkipOne(Tag(num, wireType) + (Varint(length) + rest), depth) == Err(InvalidLength)
  {
    hide ReadVarint, Tag, ToInt32;
    TagRoundTrip(num, wireType, rest);
    TagRoundTrip(num, wireType, Varint(length) + rest);
    VarintRoundTrip(length, rest);
    var tag := Tag(num, wireType);
    assert (tag + (Varint(length) + rest))[|tag|..] == Varint(length) + rest;
  }

  /** A chunk whose length does not fit an int, or is more than there is, is refused. */
  lemma ChunkRefuses(length: Uint64, rest: Bytes)
    ensures length >= TWO_63 ==> ReadChunk(Varint(length) + rest) == Err(InvalidLength)
    ensures |rest| < length < TWO_63 ==> ReadChunk(Varint(length) + rest) == Err(UnexpectedEOF)
  {
    hide ReadVarint, Varint;
    VarintRoundTrip(length, rest);
  }
}
