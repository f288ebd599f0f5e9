/**
 Writing back to front: the encoders fill a buffer from its end, so that a nested message's
 length is known by the time it has to be written.
 */
module Tail {
  import opened Results
  import opened Wire
  import opened Records
  import opened Decoding
  import opened Encoding
  import opened Bits

  /** `s` with the bytes from `j` on replaced by `bs`. */
  function Splice(s: Bytes, j: nat, bs: Bytes): (r: Bytes)
    requires j + |bs| <= |s|
    ensures |r| == |s|
    ensures r[j..j + |bs|] == bs && r[..j] == s[..j] && r[j + |bs|..] == s[j + |bs|..]
  {
    s[..j] + bs + s[j + |bs|..]
  }

  lemma SpliceBefore(s: Bytes, j: nat, done: Bytes, a: Bytes)
    requires |a| <= j && j + |done| <= |s|
    ensures Splice(Splice(s, j, done), j - |a|, a) == Splice(s, j - |a|, a + done)
  {
  }

  /** The buffer is as it was, except that the bytes `done` have been written from `i` on. */
  ghost predicate Filled(now: Bytes, was: Bytes, i: nat, done: Bytes) {
    i + |done| <= |was| && now == Splice(was, i, done)
  }

  lemma FilledOneMore(now: Bytes, was: Bytes, i: nat, done: Bytes, now': Bytes, a: Bytes)
    requires Filled(now, was, i, done) && |a| <= i && Filled(now', now, i - |a|, a)
    ensures Filled(now', was, i - |a|, a + done)
  {
    SpliceBefore(was, i, done, a);
  }

  // ---------- The size of a varint ----------

  function BitLen(x: nat): nat {
    if x == 0 then 0 else 1 + BitLen(x / 2)
  }

  /** sov: how many bytes a varint takes, from the position of its highest bit. */
  function Sov(x: Uint64): nat {
    (BitLen(BitOr(x, 1)) + 6) / 7
  }

  lemma {:induction false} BitLenShift(x: nat)
    requires x >= 128
    ensures BitLen(x) == 7 + BitLen(x / 128)
  {
    hide BitLen;
    assert x / 128 == x / 2 / 2 / 2 / 2 / 2 / 2 / 2;
    BitLenHalf(x);
    BitLenHalf(x / 2);
    BitLenHalf(x / 4);
    BitLenHalf(x / 8);
    BitLenHalf(x / 16);
    BitLenHalf(x / 32);
    BitLenHalf(x / 64);
  }

  lemma BitLenHalf(x: nat)
    requires x > 0
    ensures BitLen(x) == 1 + BitLen(x / 2)
  {}

  lemma {:induction false} BitLenSmall(x: nat)
    requires 0 < x < 128
    ensures 1 <= BitLen(x) <= 7
  {
    BitLenBelow(x, 7);
  }

  lemma {:induction false} BitLenBelow(x: nat, n: nat)
    requires x < Pow2(n)
    ensures BitLen(x) <= n
  {
    if x > 0 {
      BitLenBelow(x / 2, n - 1);
    }
  }

  lemma {:induction false} VarintLengthFromBits(x: nat)
    requires x > 0
    ensures |Varint(x)| == (BitLen(x) + 6) / 7
  {
    if x < 128 {
      BitLenSmall(x);
    } else {
      BitLenShift(x);
      VarintLengthFromBits(x / 128);
    }
  }

  /** The size calculator predicts exactly what the varint encoder emits. */
  lemma {:induction false} SovIsVarintLength(x: Uint64)
    ensures Sov(x) == |Varint(x)|
  {
    OrWithZero(x / 2);
    assert BitOr(x, 1) == 2 * (x / 2) + 1;
    VarintLengthFromBits(2 * (x / 2) + 1);
    OddVarintLength(x);
  }

  lemma {:induction false} OddVarintLength(x: nat)
    ensures |Varint(2 * (x / 2) + 1)| == |Varint(x)|
  {
    if x >= 128 {
      assert (2 * (x / 2) + 1) / 128 == x / 128;
    }
  }

  // ---------- The pieces of an encoder ----------

  method EncodeVarint(dAtA: array<Byte>, offset: nat, v: Uint64, ghost was: Bytes, ghost done: Bytes)
    returns (base: nat)
    requires |Varint(v)| <= offset <= dAtA.Length
    requires Filled(dAtA[..], was, offset, done)
    modifies dAtA
    ensures base == offset - |Varint(v)|
    ensures Filled(dAtA[..], was, base, Varint(v) + done)
  {
    hide Varint, Splice, Sov, Filled;
    SovIsVarintLength(v);
    ghost var before := dAtA[..];
    base := offset - Sov(v);
    var i, v' := base, v;
    ghost var written: Bytes := [];
    SpliceNothing(before, base);
    while v' >= 0x80
      invariant base <= i && i + |Varint(v')| == offset
      invariant written + Varint(v') == Varint(v) && i == base + |written|
      invariant dAtA[..] == Splice(before, base, written)
    {
      VarintGoesOn(written, v', v);
      var b: Byte := v' % 0x80 + 0x80;
      SpliceGrows(before, base, written, b);
      dAtA[i] := b;
      assert dAtA[..] == Splice(before, base, written)[i := b];
      written := written + [b];
      v' := v' / 128;
      i := i + 1;
    }
    VarintUnfolds(v');
    SpliceGrows(before, base, written, v');
    dAtA[i] := v';
    assert dAtA[..] == Splice(before, base, written)[i := v'];
    FilledOneMore(before, was, offset, done, dAtA[..], Varint(v));
  }

  lemma VarintGoesOn(written: Bytes, v': nat, v: nat)
    requires v' >= 128 && written + Varint(v') == Varint(v)
    ensures |Varint(v')| == 1 + |Varint(v' / 128)|
    ensures written + [v' % 128 + 128] + Varint(v' / 128) == Varint(v)
  {
    hide Varint;
    VarintUnfolds(v');
  }

  lemma VarintUnfolds(v: nat)
    ensures Varint(v) == if v < 128 then [v] else [v % 128 + 128] + Varint(v / 128)
  {}

  lemma SpliceNothing(s: Bytes, j: nat)
    requires j <= |s|
    ensures Splice(s, j, []) == s
  {}

  lemma SpliceGrows(s: Bytes, j: nat, bs: Bytes, b: Byte)
    requires j + |bs| < |s|
    ensures Splice(s, j, bs)[j + |bs| := b] == Splice(s, j, bs + [b])
  {}

  /** copy(dAtA[i:], bs) */
  method CopyInto(dAtA: array<Byte>, end: nat, bs: Bytes, ghost was: Bytes, ghost done: Bytes) returns (i: nat)
    requires |bs| <= end <= dAtA.Length
    requires Filled(dAtA[..], was, end, done)
    modifies dAtA
    ensures i == end - |bs|
    ensures Filled(dAtA[..], was, i, bs + done)
  {
    ghost var before := dAtA[..];
    i := end - |bs|;
    forall k | 0 <= k < |bs| {
      dAtA[i + k] := bs[k];
    }
    assert dAtA[..] == Splice(before, i, bs);
    FilledOneMore(before, was, end, done, dAtA[..], bs);
  }

  method PutTag(dAtA: array<Byte>, end: nat, tag: Byte, ghost was: Bytes, ghost done: Bytes) returns (i: nat)
    requires 1 <= end <= dAtA.Length
    requires Filled(dAtA[..], was, end, done)
    modifies dAtA
    ensures i == end - 1
    ensures Filled(dAtA[..], was, i, [tag] + done)
  {
    ghost var before := dAtA[..];
    i := end - 1;
    dAtA[i] := tag;
    assert dAtA[..] == Splice(before, i, [tag]);
    FilledOneMore(before, was, end, done, dAtA[..], [tag]);
  }

  lemma OneByteTag(num: nat, wireType: nat)
    requires 8 * num + wireType < 128
    ensures Tag(num, wireType) == [8 * num + wireType]
  {}

  /** A length-delimited field, written from its last byte to its tag. */
  method PutChunk(dAtA: array<Byte>, end: nat, num: nat, tag: Byte, bs: Bytes, ghost was: Bytes, ghost done: Bytes)
    returns (i: nat)
    requires tag == 8 * num + 2 < 128 && |bs| < TWO_63
    requires |EncodeField(num, Delimited, Contents(bs))| <= end <= dAtA.Length
    requires Filled(dAtA[..], was, end, done)
    modifies dAtA
    ensures i == end - |EncodeField(num, Delimited, Contents(bs))|
    ensures Filled(dAtA[..], was, i, EncodeField(num, Delimited, Contents(bs)) + done)
  {
    hide Varint, Filled;
    OneByteTag(num, 2);
    i := CopyInto(dAtA, end, bs, was, done);
    i := PutLength(dAtA, i, num, tag, |bs|, bs, was, done);
  }

  /** The length and the tag in front of bytes that are already there. */
  method PutLength(
      dAtA: array<Byte>, end: nat, num: nat, tag: Byte, size: nat, ghost bs: Bytes, ghost was: Bytes, ghost done: Bytes
  ) returns (i: nat)
    requires tag == 8 * num + 2 < 128 && size == |bs| < TWO_63
    requires |[tag] + Varint(|bs|)| <= end <= dAtA.Length
    requires Filled(dAtA[..], was, end, bs + done)
    modifies dAtA
    ensures |[tag] + Varint(|bs|) + bs| == |EncodeField(num, Delimited, Contents(bs))|
    ensures i == end - |[tag] + Varint(|bs|)|
    ensures Filled(dAtA[..], was, i, EncodeField(num, Delimited, Contents(bs)) + done)
  {
    hide Varint, Filled;
    OneByteTag(num, 2);
    i := EncodeVarint(dAtA, end, size, was, bs + done);
    i := PutTag(dAtA, i, tag, was, Varint(|bs|) + (bs + done));
    assert [tag] + (Varint(|bs|) + (bs + done)) == EncodeField(num, Delimited, Contents(bs)) + done;
  }

  method PutScalar(dAtA: array<Byte>, end: nat, num: nat, tag: Byte, v: Uint64, ghost was: Bytes, ghost done: Bytes)
    returns (i: nat)
    requires tag == 8 * num < 128
    requires |EncodeField(num, Scalar, Number(v))| <= end <= dAtA.Length
    requires Filled(dAtA[..], was, end, done)
    modifies dAtA
    ensures i == end - |EncodeField(num, Scalar, Number(v))|
    ensures Filled(dAtA[..], was, i, EncodeField(num, Scalar, Number(v)) + done)
  {
    hide Varint, Filled;
    OneByteTag(num, 0);
    i := EncodeVarint(dAtA, end, v, was, done);
    i := PutTag(dAtA, i, tag, was, Varint(v) + done);
    assert [tag] + (Varint(v) + done) == EncodeField(num, Scalar, Number(v)) + done;
  }

  method PutFixed64(dAtA: array<Byte>, end: nat, num: nat, tag: Byte, v: Uint64, ghost was: Bytes, ghost done: Bytes)
    returns (i: nat)
    requires tag == 8 * num + 1 < 128
    requires 9 <= end <= dAtA.Length
    requires Filled(dAtA[..], was, end, done)
    modifies dAtA
    ensures i == end - 9 && |EncodeField(num, Fixed, Number(v))| == 9
    ensures Filled(dAtA[..], was, i, EncodeField(num, Fixed, Number(v)) + done)
  {
    hide Varint, Filled;
    OneByteTag(num, 1);
    i := CopyInto(dAtA, end, Little(v, 8), was, done);
    i := PutTag(dAtA, i, tag, was, Little(v, 8) + done);
    assert [tag] + (Little(v, 8) + done) == EncodeField(num, Fixed, Number(v)) + done;
  }

  // ---------- Fields that are written unless they are zero ----------

  method PutOptChunk(dAtA: array<Byte>, end: nat, num: nat, tag: Byte, bs: Bytes, ghost was: Bytes, ghost done: Bytes)
    returns (i: nat)
    requires tag == 8 * num + 2 < 128 && |bs| < TWO_63
    requires |OptChunk(num, bs)| <= end <= dAtA.Length
    requires Filled(dAtA[..], was, end, done)
    modifies dAtA
    ensures i == end - |OptChunk(num, bs)|
    ensures Filled(dAtA[..], was, i, OptChunk(num, bs) + done)
  {
    hide EncodeField, Filled;
    i := end;
    if |bs| > 0 {
      i := PutChunk(dAtA, i, num, tag, bs, was, done);
    } else {
      assert OptChunk(num, bs) + done == done;
    }
  }

  method PutOptScalar(dAtA: array<Byte>, end: nat, num: nat, tag: Byte, v: Uint64, ghost was: Bytes, ghost done: Bytes)
    returns (i: nat)
    requires tag == 8 * num < 128
    requires |OptScalar(num, v)| <= end <= dAtA.Length
    requires Filled(dAtA[..], was, end, done)
    modifies dAtA
    ensures i == end - |OptScalar(num, v)|
    ensures Filled(dAtA[..], was, i, OptScalar(num, v) + done)
  {
    hide EncodeField, Filled;
    i := end;
    if v != 0 {
      i := PutScalar(dAtA, i, num, tag, v, was, done);
    } else {
      assert OptScalar(num, v) + done == done;
    }
  }

  method PutOptFixed64(dAtA: array<Byte>, end: nat, num: nat, tag: Byte, v: Uint64, ghost was: Bytes, ghost done: Bytes)
    returns (i: nat)
    requires tag == 8 * num + 1 < 128
    requires |OptFixed(num, v)| <= end <= dAtA.Length
    requires Filled(dAtA[..], was, end, done)
    modifies dAtA
    ensures i == end - |OptFixed(num, v)|
    ensures Filled(dAtA[..], was, i, OptFixed(num, v) + done)
  {
    hide Filled;
    i := end;
    if v != 0 {
      OneByteTag(num, 1);
      i := PutFixed64(dAtA, i, num, tag, v, was, done);
    } else {
      assert OptFixed(num, v) + done == done;
    }
  }

  /** The hand-written encoder of trace data: the library's bytes go to the tail of the buffer,
      which is where the parent message expects its nested field.  The library's error is passed on
      before anything is written. */
  method MarshalTracesData(data: Result<Bytes, Error>, buf: array<Byte>, end: nat) returns (r: Result<nat, Error>)
    requires end <= buf.Length && (data.Ok? ==> |data.value| <= end)
    modifies buf
    ensures match data
            case Err(e) => r == Err(e) && buf[..] == old(buf[..])
            case Ok(bs) => r == Ok(|bs|) && buf[..] == Splice(old(buf[..]), end - |bs|, bs)
  {
    var bs :- data;
    ghost var was := buf[..];
    SpliceNothing(was, end);
    var i := CopyInto(buf, end, bs, was, []);
    assert bs + [] == bs;
    return Ok(end - i);
  }

  /** The records a message did not recognize go at the very end of it. */
  method PutUnrecognized(dAtA: array<Byte>, end: nat, bs: Bytes, ghost was: Bytes) returns (i: nat)
    requires |bs| <= end <= dAtA.Length && dAtA[..] == was
    modifies dAtA
    ensures i == end - |bs|
    ensures Filled(dAtA[..], was, i, bs)
  {
    SpliceNothing(was, end);
    i := CopyInto(dAtA, end, bs, was, []);
    assert bs + [] == bs;
  }

  // ---------- Sizes of fields ----------

  method SizeOfOptChunk(num: nat, bs: Bytes) returns (n: nat)
    requires num < 15 && |bs| < TWO_63
    ensures n == |OptChunk(num, bs)|
  {
    hide Varint, BitOr, BitLen;
    n := 0;
    var l := |bs|;
    if l > 0 {
      n := 1 + l + Sov(l);
      SovIsVarintLength(l);
      OneByteTag(num, 2);
    }
  }

  method SizeOfOptScalar(num: nat, v: Uint64) returns (n: nat)
    requires num < 15
    ensures n == |OptScalar(num, v)|
  {
    hide Varint, BitOr, BitLen;
    n := 0;
    if v != 0 {
      n := 1 + Sov(v);
      SovIsVarintLength(v);
      OneByteTag(num, 0);
    }
  }

  method SizeOfOptFixed64(num: nat, v: Uint64) returns (n: nat)
    requires num < 15
    ensures n == |OptFixed(num, v)|
  {
    n := 0;
    if v != 0 {
      OneByteTag(num, 1);
      n := 9;
    }
  }

  lemma FieldLength(num: nat, bs: Bytes)
    requires num < 15
    ensures |EncodeField(num, Delimited, Contents(bs))| == 1 + |Varint(|bs|)| + |bs|
  {
    OneByteTag(num, 2);
  }

  lemma NothingRepeated<M>(num: nat, encode: M -> Bytes)
    ensures Repeated(num, encode, []) == []
  {}

  lemma FilledBySplice(s: Bytes, j: nat, bs: Bytes)
    requires j + |bs| <= |s|
    ensures Filled(Splice(s, j, bs), s, j, bs)
  {}

  lemma FilledIsSplice(now: Bytes, was: Bytes, i: nat, done: Bytes)
    requires Filled(now, was, i, done)
    ensures i + |done| <= |was| && now == Splice(was, i, done)
  {}
}
