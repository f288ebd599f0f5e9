/**
 The Protocol Buffers wire format: base-128 varints, length-delimited chunks and the
 group-aware skip, as functions on the bytes still to be read.  Lengths are unbounded here;
 the methods of `Cursor` and `Tail` do the same work with Go's 64-bit integers.
 */
module Wire {
  import opened Results

  type Byte = x: int | 0 <= x < 256
  type Bytes = seq<Byte>

  const TWO_31: int := 0x8000_0000
  const TWO_32: int := 0x1_0000_0000
  const TWO_63: int := 0x8000_0000_0000_0000
  const TWO_64: int := 0x1_0000_0000_0000_0000

  // The largest Go slice the model speaks of: adding a fixed-width field to an index into it
  // does not overflow.  No allocation comes near it.
  const MAX_LEN: int := TWO_63 - 9

  type Uint64 = x: int | 0 <= x < 0x1_0000_0000_0000_0000
  type Int64 = x: int | -0x8000_0000_0000_0000 <= x < 0x8000_0000_0000_0000
  type Uint32 = x: int | 0 <= x < 0x1_0000_0000
  type Int32 = x: int | -0x8000_0000 <= x < 0x8000_0000

  datatype Error =
    | IntOverflow
    | UnexpectedEOF
    | InvalidLength
    | UnexpectedEndOfGroup
    | IllegalWireType
    | EndGroupForNonGroup
    | IllegalTag
    | WrongWireType
    | Library

  // ---------- Go's integer conversions ----------

  function ToUint64(x: int): Uint64 {
    x % TWO_64
  }

  function ToInt64(x: int): Int64 {
    var r := x % TWO_64;
    if r < TWO_63 then r else r - TWO_64
  }

  function ToUint32(x: int): Uint32 {
    x % TWO_32
  }

  function ToInt32(x: int): Int32 {
    var r := x % TWO_32;
    if r < TWO_31 then r else r - TWO_32
  }

  // ---------- Varints ----------

  function Varint(v: nat): (bs: Bytes)
    ensures |bs| >= 1
  {
    if v < 128 then [v] else [v % 128 + 128] + Varint(v / 128)
  }

  /** Reads a varint whose first byte is shifted left by `shift`.  Yields the value the bytes
      spell, before any truncation, and how many bytes were read. */
  function ReadVarint(d: Bytes, shift: nat := 0): (r: Result<(nat, nat), Error>)
    ensures r.Ok? ==> 0 < r.value.1 <= |d|
  {
    if shift >= 64 then Err(IntOverflow)
    else if d == [] then Err(UnexpectedEOF)
    else if d[0] < 128 then Ok((d[0], 1))
    else
      var (v, n) :- ReadVarint(d[1..], shift + 7);
      Ok((d[0] - 128 + 128 * v, n + 1))
  }

  function Pow128(n: nat): nat {
    if n == 0 then 1 else 128 * Pow128(n - 1)
  }

  lemma {:induction false} VarintLength(v: nat, n: nat)
    requires n > 0 && v < Pow128(n)
    ensures |Varint(v)| <= n
  {
    if v >= 128 {
      assert Pow128(1) == 128 * Pow128(0);
      VarintLength(v / 128, n - 1);
    }
  }

  lemma {:induction false} Uint64VarintLength(v: Uint64)
    ensures |Varint(v)| <= 10
  {
    assert Pow128(10) == 0x40_0000_0000_0000_0000 by {
      assert Pow128(2) == 16384;
      assert Pow128(4) == 128 * Pow128(3);
      assert Pow128(6) == 128 * Pow128(5);
      assert Pow128(8) == 128 * Pow128(7);
    }
    VarintLength(v, 10);
  }

  lemma {:induction false} ReadsVarint(v: nat, rest: Bytes, shift: nat)
    requires shift + 7 * |Varint(v)| <= 70
    ensures ReadVarint(Varint(v) + rest, shift) == Ok((v, |Varint(v)|))
  {
    if v >= 128 {
      ReadsVarint(v / 128, rest, shift + 7);
      assert (Varint(v) + rest)[1..] == Varint(v / 128) + rest;
    }
  }

  /** Every uint64 survives the wire, whatever follows it. */
  lemma {:induction false} VarintRoundTrip(v: Uint64, rest: Bytes)
    ensures ReadVarint(Varint(v) + rest) == Ok((v, |Varint(v)|))
  {
    Uint64VarintLength(v);
    ReadsVarint(v, rest, 0);
  }

  lemma {:induction false} ReadVarintExtends(d: Bytes, e: Bytes, shift: nat := 0)
    requires ReadVarint(d, shift).Ok?
    ensures ReadVarint(d + e, shift) == ReadVarint(d, shift)
  {
    if d[0] >= 128 {
      ReadVarintExtends(d[1..], e, shift + 7);
      assert (d + e)[1..] == d[1..] + e;
    }
  }

  /** Sign extension into uint64 and truncation back give a negative int32 again. */
  lemma Int32Survives(x: Int32)
    ensures ToInt32(ToUint64(x)) == x
  {
    assert ToUint64(x) % TWO_32 == x % TWO_32;
  }

  // ---------- Chunks ----------

  /** A length and that many bytes.  Yields the bytes and how much was read in all. */
  function ReadChunk(d: Bytes): (r: Result<(Bytes, nat), Error>)
    ensures r.Ok? ==> 0 < r.value.1 <= |d| && |r.value.0| < r.value.1
  {
    var (len, n) :- ReadVarint(d);
    var len := ToUint64(len);
    if len >= TWO_63 then Err(InvalidLength)
    else if n + len > |d| then Err(UnexpectedEOF)
    else Ok((d[n..n + len], n + len))
  }

  function Chunk(bs: Bytes): (r: Bytes)
    ensures |r| > |bs|
  {
    Varint(|bs|) + bs
  }

  lemma ChunkRoundTrip(bs: Bytes, rest: Bytes)
    requires |bs| < TWO_63
    ensures ReadChunk(Chunk(bs) + rest) == Ok((bs, |Chunk(bs)|))
  {
    VarintRoundTrip(|bs|, bs + rest);
    assert Chunk(bs) + rest == Varint(|bs|) + (bs + rest);
  }

  lemma ReadChunkExtends(d: Bytes, e: Bytes)
    requires ReadChunk(d).Ok?
    ensures ReadChunk(d + e) == ReadChunk(d)
  {
    ReadVarintExtends(d, e);
    var (bs, n) := ReadChunk(d).value;
    assert (d + e)[n - |bs|..n] == d[n - |bs|..n];
  }

  // ---------- Fixed-width little-endian numbers ----------

  function Little(v: nat, width: nat): (bs: Bytes)
    ensures |bs| == width
  {
    if width == 0 then [] else [v % 256] + Little(v / 256, width - 1)
  }

  function FromLittle(bs: Bytes): (v: nat) {
    if bs == [] then 0 else bs[0] + 256 * FromLittle(bs[1..])
  }

  function Pow256(n: nat): nat {
    if n == 0 then 1 else 256 * Pow256(n - 1)
  }

  lemma {:induction false} LittleRoundTrip(v: nat, width: nat)
    requires v < Pow256(width)
    ensures FromLittle(Little(v, width)) == v
  {
    if width > 0 {
      LittleRoundTrip(v / 256, width - 1);
      assert Little(v, width)[1..] == Little(v / 256, width - 1);
    }
  }

  lemma {:induction false} FromLittleBound(bs: Bytes)
    ensures FromLittle(bs) < Pow256(|bs|)
  {
    if bs != [] {
      FromLittleBound(bs[1..]);
    }
  }

  lemma EightBytesAreUint64()
    ensures Pow256(8) == TWO_64
  {
    assert Pow256(2) == 65536;
    assert Pow256(4) == 256 * Pow256(3);
    assert Pow256(6) == 256 * Pow256(5);
  }

  // ---------- Skipping a record of unknown field number ----------

  /** One tag and the payload it announces, without looking at field numbers.  Yields the bytes
      passed over, which may lie beyond the end, and the group depth afterwards. */
  function SkipOne(d: Bytes, depth: nat): (r: Result<(nat, nat), Error>)
    ensures r.Ok? ==> r.value.0 > 0
  {
    var (wire, n) :- ReadVarint(d);
    match wire % 8
    case 0 =>
      var (_, n') :- ReadVarint(d[n..]);
      Ok((n + n', depth))
    case 1 => Ok((n + 8, depth))
    case 2 =>
      var (len, n') :- ReadVarint(d[n..]);
      var len := ToUint64(len);
      if len >= TWO_63 then Err(InvalidLength) else Ok((n + n' + len, depth))
    case 3 => Ok((n, depth + 1))
    case 4 => if depth == 0 then Err(UnexpectedEndOfGroup) else Ok((n, depth - 1))
    case 5 => Ok((n + 4, depth))
    case _ => Err(IllegalWireType)
  }

  function Skip(d: Bytes, depth: nat := 0): (r: Result<nat, Error>)
    ensures r.Ok? ==> r.value > 0
    decreases |d|
  {
    if d == [] then Err(UnexpectedEOF) else
    var (n, depth') :- SkipOne(d, depth);
    if depth' == 0 then Ok(n)
    else if n >= |d| then Err(UnexpectedEOF)
    else
      var s :- Skip(d[n..], depth');
      Ok(n + s)
  }

  lemma SkipOneExtends(d: Bytes, e: Bytes, depth: nat)
    requires SkipOne(d, depth).Ok?
    ensures SkipOne(d + e, depth) == SkipOne(d, depth)
  {
    ReadVarintExtends(d, e);
    var n := ReadVarint(d).value.1;
    assert (d + e)[n..] == d[n..] + e;
    if ReadVarint(d[n..]).Ok? {
      ReadVarintExtends(d[n..], e);
    }
  }

  lemma {:induction false} SkipExtends(d: Bytes, e: Bytes, depth: nat := 0)
    requires Skip(d, depth).Ok?
    ensures Skip(d + e, depth) == Skip(d, depth)
    decreases |d|
  {
    hide SkipOne;
    SkipOneExtends(d, e, depth);
    var (n, depth') := SkipOne(d, depth).value;
    if depth' != 0 {
      SkipExtends(d[n..], e, depth');
      assert (d + e)[n..] == d[n..] + e;
    }
  }

  // ---------- Reading needs nothing beyond what it consumes ----------

  lemma {:induction false} ReadVarintPrefix(d: Bytes, shift: nat, t: nat)
    requires ReadVarint(d, shift).Ok? && ReadVarint(d, shift).value.1 <= t <= |d|
    ensures ReadVarint(d[..t], shift) == ReadVarint(d, shift)
  {
    if d[0] >= 128 {
      ReadVarintPrefix(d[1..], shift + 7, t - 1);
      assert d[..t][1..] == d[1..][..t - 1];
    }
  }

  lemma SkipReadsTag(d: Bytes)
    requires Skip(d).Ok?
    ensures ReadVarint(d).Ok? && ReadVarint(d).value.1 <= Skip(d).value
  {
    hide ReadVarint, ToUint64;
    SkipReadsOne(d);
  }

  lemma SkipReadsOne(d: Bytes)
    requires Skip(d).Ok?
    ensures SkipOne(d, 0).Ok? && SkipOne(d, 0).value.0 <= Skip(d).value
  {
    hide SkipOne;
  }

  lemma SkipOnePrefix(d: Bytes, depth: nat, t: nat)
    requires SkipOne(d, depth).Ok? && SkipOne(d, depth).value.0 <= t <= |d|
    ensures SkipOne(d[..t], depth) == SkipOne(d, depth)
  {
    hide ReadVarint;
    var n := ReadVarint(d).value.1;
    ReadVarintPrefix(d, 0, t);
    assert d[..t][n..] == d[n..][..t - n];
    var wireType := ReadVarint(d).value.0 % 8;
    if wireType == 0 || wireType == 2 {
      ReadVarintPrefix(d[n..], 0, t - n);
    }
  }

  lemma {:induction false} SkipPrefix(d: Bytes, depth: nat, t: nat)
    requires Skip(d, depth).Ok? && Skip(d, depth).value <= t <= |d|
    ensures Skip(d[..t], depth) == Skip(d, depth)
    decreases |d|
  {
    hide SkipOne;
    SkipOnePrefix(d, depth, t);
    var (n, depth') := SkipOne(d, depth).value;
    if depth' != 0 {
      SkipPrefix(d[n..], depth', t - n);
      assert d[..t][n..] == d[n..][..t - n];
    }
  }
}
