/**
 The loops by which the generated decoders move `iNdEx` over a buffer, in Go's fixed-width
 integers.  Each is proved against its counterpart in `Wire`, where lengths are unbounded: the
 sign checks after an addition that may wrap are enough.
 */
module Cursor {
  import opened Results
  import opened Wire
  import opened Decoding
  import opened Bits

  /** The method's outcome is the specified one, except that a length whose end wraps past the
      largest index is reported as invalid where the specification runs out of bytes. */
  predicate Agrees<T(==)>(r: Result<T, Error>, spec: Result<T, Error>) {
    r == spec || (r == Err(InvalidLength) && spec == Err(UnexpectedEOF))
  }

  /** What is read at index `i`, in absolute positions and truncated to `width` bits. */
  function VarintAt(dAtA: Bytes, i: nat, width: nat): Result<(nat, nat), Error>
    requires i <= |dAtA|
  {
    var (v, n) :- ReadVarint(dAtA[i..]);
    Ok((v % Pow2(width), i + n))
  }

  /** A varint of which `n` bytes spelling `raw` have been read, and what the rest reads as. */
  function Resumed(raw: nat, scale: nat, n: nat, rest: Result<(nat, nat), Error>): Result<(nat, nat), Error> {
    var (v, n') :- rest;
    Ok((raw + scale * v, n + n'))
  }

  lemma ResumesVarint(d: Bytes, shift: nat, raw: nat, n: nat)
    requires d != [] && d[0] >= 128 && shift < 64
    ensures Resumed(raw, Pow2(shift), n, ReadVarint(d, shift))
         == Resumed(raw + Pow2(shift) * (d[0] - 128), Pow2(shift + 7), n + 1, ReadVarint(d[1..], shift + 7))
  {
    Pow2Sum(shift, 7);
    Pow2OfByte();
    if ReadVarint(d[1..], shift + 7).Ok? {
      var v := ReadVarint(d[1..], shift + 7).value.0;
      MulDistributes(Pow2(shift), d[0] - 128, 128 * v);
      MulAssociates(Pow2(shift), 128, v);
    }
  }

  lemma KeepsBelow(raw: nat, bits: nat, shift: nat)
    requires raw < Pow2(shift) && bits < 128
    ensures raw + Pow2(shift) * bits < Pow2(shift + 7)
  {
    Pow2Sum(shift, 7);
    Pow2OfByte();
    MulGrows(Pow2(shift), bits, 127);
  }

  /** The bytes from `iNdEx` to `i` spell `raw`; what is left to read comes on top of it. */
  ghost predicate Spelled(dAtA: Bytes, iNdEx: nat, i: nat, raw: nat, shift: nat) {
    && iNdEx <= i <= |dAtA|
    && raw < Pow2(shift)
    && ReadVarint(dAtA[iNdEx..]) == Resumed(raw, Pow2(shift), i - iNdEx, ReadVarint(dAtA[i..], shift))
  }

  lemma SpelledOneMore(dAtA: Bytes, iNdEx: nat, i: nat, raw: nat, shift: nat)
    requires Spelled(dAtA, iNdEx, i, raw, shift) && shift < 64 && i < |dAtA|
    ensures var b, raw' := dAtA[i], raw + Pow2(shift) * (dAtA[i] % 128);
            if b < 128 then ReadVarint(dAtA[iNdEx..]) == Ok((raw', i + 1 - iNdEx))
            else Spelled(dAtA, iNdEx, i + 1, raw', shift + 7)
  {
    hide Pow2, ReadVarint;
    KeepsBelow(raw, dAtA[i] % 128, shift);
    var d := dAtA[i..];
    assert d[1..] == dAtA[i + 1..];
    if d[0] >= 128 {
      ResumesVarint(d, shift, raw, i - iNdEx);
    } else {
      LastByte(d, shift);
    }
  }

  lemma LastByte(d: Bytes, shift: nat)
    requires d != [] && d[0] < 128 && shift < 64
    ensures ReadVarint(d, shift) == Ok((d[0], 1))
  {
  }

  lemma SpelledNothing(dAtA: Bytes, iNdEx: nat)
    requires iNdEx <= |dAtA|
    ensures Spelled(dAtA, iNdEx, iNdEx, 0, 0)
  {
  }

  lemma SpelledStops(dAtA: Bytes, iNdEx: nat, i: nat, raw: nat, shift: nat)
    requires Spelled(dAtA, iNdEx, i, raw, shift) && (shift >= 64 || i == |dAtA|)
    ensures ReadVarint(dAtA[iNdEx..]) == Err(if shift >= 64 then IntOverflow else UnexpectedEOF)
  {
  }

  /** The innermost loop of every decoder, for a destination of `width` bits. */
  method ReadBits(dAtA: Bytes, iNdEx: nat, width: nat) returns (r: Result<(nat, nat), Error>)
    requires iNdEx <= |dAtA|
    ensures r == VarintAt(dAtA, iNdEx, width)
    ensures r.Ok? ==> iNdEx < r.value.1 <= |dAtA|
  {
    hide BitOr, Pow2, ReadVarint, Spelled;
    var x: nat, shift: nat, i: nat := 0, 0, iNdEx;
    ghost var raw: nat := 0;
    SpelledNothing(dAtA, iNdEx);
    while true
      invariant iNdEx <= i <= |dAtA|
      invariant Spelled(dAtA, iNdEx, i, raw, shift)
      invariant x == raw % Pow2(width)
      decreases |dAtA| - i
    {
      if shift >= 64 {
        SpelledStops(dAtA, iNdEx, i, raw, shift);
        return Err(IntOverflow);
      }
      if i >= |dAtA| {
        SpelledStops(dAtA, iNdEx, i, raw, shift);
        return Err(UnexpectedEOF);
      }
      var b := dAtA[i];
      SpelledOneMore(dAtA, iNdEx, i, raw, shift);
      SpelledBelow(dAtA, iNdEx, i, raw, shift);
      AccumulatesBits(raw, b % 128, shift, width);
      i := i + 1;
      x := BitOr(x, (Pow2(shift) * (b % 128)) % Pow2(width));
      raw := raw + Pow2(shift) * (b % 128);
      if b < 0x80 {
        return Ok((x, i));
      }
      shift := shift + 7;
    }
  }

  lemma SpelledBelow(dAtA: Bytes, iNdEx: nat, i: nat, raw: nat, shift: nat)
    requires Spelled(dAtA, iNdEx, i, raw, shift)
    ensures raw < Pow2(shift)
  {}

  /** A length-delimited payload: where it starts and ends. */
  function SliceAt(dAtA: Bytes, i: nat): Result<(nat, nat), Error>
    requires i <= |dAtA|
  {
    var (bs, n) :- ReadChunk(dAtA[i..]);
    Ok((i + n - |bs|, i + n))
  }

  method ReadSlice(dAtA: Bytes, iNdEx: nat) returns (r: Result<(nat, nat), Error>)
    requires iNdEx <= |dAtA| <= MAX_LEN
    ensures Agrees(r, SliceAt(dAtA, iNdEx))
    ensures r.Ok? ==> iNdEx < r.value.0 <= r.value.1 <= |dAtA|
    ensures r.Ok? ==> dAtA[r.value.0..r.value.1] == ReadChunk(dAtA[iNdEx..]).value.0
  {
    hide ReadVarint, Pow2;
    Pow2Of64();
    var read :- ReadBits(dAtA, iNdEx, 64);
    var n: int, i: int := ToInt64(read.0), read.1;
    if n < 0 {
      return Err(InvalidLength);
    }
    var postIndex: int := ToInt64(i + n);
    if postIndex < 0 {
      return Err(InvalidLength);
    }
    if postIndex > |dAtA| {
      return Err(UnexpectedEOF);
    }
    return Ok((i, postIndex));
  }

  lemma Pow2Of64()
    ensures Pow2(64) == TWO_64 && Pow2(32) == TWO_32
  {
    hide Pow2;
    assert Pow2(8) == 256 by {
      Pow2OfByte();
    }
    Pow2Sum(8, 8);
    Pow2Sum(16, 16);
    Pow2Sum(32, 32);
  }

  lemma Pow2OfByte()
    ensures Pow2(7) == 128 && Pow2(8) == 256
  {
    assert Pow2(4) == 16;
  }

  // ---------- Skipping ----------

  /** The body of the skip loop: the tag and the payload it announces.  The new index may have
      wrapped; the loop looks at its sign afterwards. */
  method SkipStep(dAtA: Bytes, iNdEx: nat, depth: nat) returns (r: Result<(int, nat), Error>)
    requires iNdEx < |dAtA| <= MAX_LEN
    ensures match SkipOne(dAtA[iNdEx..], depth)
            case Err(e) => r == Err(e)
            case Ok((n, depth')) => r == Ok((ToInt64(iNdEx + n), depth'))
  {
    hide ReadVarint, Pow2;
    Pow2Of64();
    ghost var d := dAtA[iNdEx..];
    var read :- ReadBits(dAtA, iNdEx, 64);
    var wireType, i: int := read.0 % 8, read.1;
    assert wireType == ReadVarint(d).value.0 % 8;
    assert d[i - iNdEx..] == dAtA[i..];
    match wireType {
      case 0 =>
        var skipped :- ReadBits(dAtA, i, 64);
        return Ok((skipped.1, depth));
      case 1 =>
        return Ok((ToInt64(i + 8), depth));
      case 2 =>
        var len :- ReadBits(dAtA, i, 64);
        var length: int := ToInt64(len.0);
        if length < 0 {
          return Err(InvalidLength);
        }
        return Ok((ToInt64(len.1 + length), depth));
      case 3 =>
        return Ok((i, depth + 1));
      case 4 =>
        if depth == 0 {
          return Err(UnexpectedEndOfGroup);
        }
        return Ok((i, depth - 1));
      case 5 =>
        return Ok((ToInt64(i + 4), depth));
      case _ =>
        return Err(IllegalWireType);
    }
  }

  function Shifted(n: nat, r: Result<nat, Error>): Result<nat, Error> {
    var s :- r;
    Ok(n + s)
  }

  lemma SkipUnfolds(dAtA: Bytes, i: nat, depth: nat, n: nat, depth': nat)
    requires i < |dAtA| && SkipOne(dAtA[i..], depth) == Ok((n, depth'))
    ensures Shifted(i, Skip(dAtA[i..], depth))
         == if depth' == 0 then Ok(i + n)
            else if i + n >= |dAtA| then Err(UnexpectedEOF)
            else Shifted(i + n, Skip(dAtA[i + n..], depth'))
  {
    if i + n <= |dAtA| {
      assert dAtA[i..][n..] == dAtA[i + n..];
    }
  }

  lemma SkipFails(d: Bytes, depth: nat)
    requires d != [] && SkipOne(d, depth).Err?
    ensures Skip(d, depth) == SkipOne(d, depth).PropagateFailure()
  {}

  method SkipField(dAtA: Bytes) returns (r: Result<int, Error>)
    requires |dAtA| <= MAX_LEN
    ensures match Skip(dAtA)
            case Err(e) => Agrees(r, Err(e))
            case Ok(n) => r == if n < TWO_63 then Ok(n) else Err(InvalidLength)
  {
    hide Skip, SkipOne;
    var iNdEx: int, depth: nat := 0, 0;
    assert dAtA[0..] == dAtA;
    ghost var spec := Skip(dAtA);
    if dAtA == [] {
      EmptySkips();
    }
    while iNdEx < |dAtA|
      invariant 0 <= iNdEx
      invariant spec == if iNdEx < |dAtA| then Shifted(iNdEx, Skip(dAtA[iNdEx..], depth)) else Err(UnexpectedEOF)
    {
      ghost var d := dAtA[iNdEx..];
      if SkipOne(d, depth).Err? {
        SkipFails(d, depth);
      } else {
        SkipUnfolds(dAtA, iNdEx, depth, SkipOne(d, depth).value.0, SkipOne(d, depth).value.1);
      }
      var next :- SkipStep(dAtA, iNdEx, depth);
      ghost var n := SkipOne(d, depth).value.0;
      assert 0 < n && iNdEx + n < TWO_64 by { SkipOneBound(d, depth); }
      iNdEx, depth := next.0, next.1;
      if iNdEx < 0 {
        return Err(InvalidLength);
      }
      if depth == 0 {
        return Ok(iNdEx);
      }
    }
    return Err(UnexpectedEOF);
  }

  lemma EmptySkips()
    ensures Skip([]) == Err(UnexpectedEOF)
  {}

  lemma SkipOneBound(d: Bytes, depth: nat)
    requires |d| <= MAX_LEN && SkipOne(d, depth).Ok?
    ensures 0 < SkipOne(d, depth).value.0 < |d| + TWO_63
  {
    hide ReadVarint;
  }

  /** The default branch of every decoder: how many bytes the unknown record takes. */
  method SkipUnknown(dAtA: Bytes, iNdEx: nat) returns (r: Result<nat, Error>)
    requires iNdEx < |dAtA| <= MAX_LEN
    ensures Agrees(r, ReadUnknown(dAtA[iNdEx..]))
    ensures r.Ok? ==> 0 < r.value <= |dAtA| - iNdEx
  {
    hide Skip;
    var skippy :- SkipField(dAtA[iNdEx..]);
    var end: int := ToInt64(iNdEx + skippy);
    if skippy < 0 || end < 0 {
      return Err(InvalidLength);
    }
    if end > |dAtA| {
      return Err(UnexpectedEOF);
    }
    return Ok(skippy);
  }

  /** A fixed 64-bit field. */
  method ReadFixed64(dAtA: Bytes, iNdEx: nat) returns (r: Result<(Uint64, nat), Error>)
    requires iNdEx <= |dAtA| <= MAX_LEN
    ensures r == match ReadPayload(Fixed, dAtA[iNdEx..])
                 case Ok((p, n)) => Ok((p.raw, iNdEx + n))
                 case Err(e) => Err(e)
  {
    if iNdEx + 8 > |dAtA| {
      return Err(UnexpectedEOF);
    }
    assert dAtA[iNdEx..][..8] == dAtA[iNdEx..iNdEx + 8];
    FromLittleBound(dAtA[iNdEx..iNdEx + 8]);
    EightBytesAreUint64();
    return Ok((FromLittle(dAtA[iNdEx..iNdEx + 8]), iNdEx + 8));
  }

  /** One field of a map entry, and the entry's loop. */
  method ReadEntryAt(dAtA: Bytes, iNdEx: nat, postIndex: nat) returns (r: Result<(Bytes, Bytes), Error>)
    requires iNdEx <= postIndex <= |dAtA| <= MAX_LEN
    ensures Agrees(r, EntryLoop(dAtA[iNdEx..], postIndex - iNdEx, [], []))
  {
    hide ReadVarint, Pow2, Skip, ReadChunk, EntryOne;
    Pow2Of64();
    var i, mapkey: Bytes, mapvalue: Bytes := iNdEx, [], [];
    ghost var spec := EntryLoop(dAtA[iNdEx..], postIndex - iNdEx, [], []);
    while i < postIndex
      invariant iNdEx <= i <= |dAtA|
      invariant i <= postIndex ==> spec == EntryLoop(dAtA[i..], postIndex - i, mapkey, mapvalue)
      invariant i >= postIndex ==> spec == Ok((mapkey, mapvalue))
      decreases postIndex - i
    {
      ghost var d, left := dAtA[i..], postIndex - i;
      ghost var one := EntryOne(d, left, mapkey, mapvalue);
      EntryUnfolds(dAtA, i, postIndex, mapkey, mapvalue);
      assert one.Err? ==> spec == one.PropagateFailure();
      var got :- ReadEntryField(dAtA, i, postIndex, mapkey, mapvalue);
      mapkey, mapvalue, i := got.0, got.1, got.2;
    }
    return Ok((mapkey, mapvalue));
  }

  lemma EntryUnfolds(dAtA: Bytes, i: nat, postIndex: nat, key: Bytes, val: Bytes)
    requires i < postIndex <= |dAtA|
    ensures EntryLoop(dAtA[i..], postIndex - i, key, val)
         == match EntryOne(dAtA[i..], postIndex - i, key, val)
            case Err(e) => Err(e)
            case Ok((k, v, n)) =>
              if i + n >= postIndex then Ok((k, v)) else EntryLoop(dAtA[i + n..], postIndex - i - n, k, v)
  {
    hide EntryOne;
    var one := EntryOne(dAtA[i..], postIndex - i, key, val);
    if one.Ok? && i + one.value.2 < postIndex {
      assert dAtA[i..][one.value.2..] == dAtA[i + one.value.2..];
    }
  }

  method ReadEntryField(dAtA: Bytes, iNdEx: nat, postIndex: nat, mapkey: Bytes, mapvalue: Bytes)
    returns (r: Result<(Bytes, Bytes, nat), Error>)
    requires iNdEx < postIndex <= |dAtA| <= MAX_LEN
    ensures Agrees(r, match EntryOne(dAtA[iNdEx..], postIndex - iNdEx, mapkey, mapvalue)
                      case Ok((k, v, n)) => Ok((k, v, iNdEx + n))
                      case Err(e) => Err(e))
    ensures r.Ok? ==> iNdEx < r.value.2 <= |dAtA|
  {
    hide ReadVarint, Pow2, Skip;
    Pow2Of64();
    var wire :- ReadBits(dAtA, iNdEx, 64);
    var fieldNum, i := ToInt32(wire.0 / 8), wire.1;
    assert dAtA[iNdEx..][i - iNdEx..] == dAtA[i..];
    if fieldNum == 1 {
      var at :- ReadSlice(dAtA, i);
      return Ok((dAtA[at.0..at.1], mapvalue, at.1));
    } else if fieldNum == 2 {
      var at :- ReadSlice(dAtA, i);
      return Ok((mapkey, dAtA[at.0..at.1], at.1));
    } else {
      var skippy :- SkipField(dAtA[iNdEx..]);
      var end: int := ToInt64(iNdEx + skippy);
      if skippy < 0 || end < 0 {
        return Err(InvalidLength);
      }
      if end > postIndex {
        return Err(UnexpectedEOF);
      }
      return Ok((mapkey, mapvalue, iNdEx + skippy));
    }
  }

  /** The head of every iteration: the tag, split into its field number and wire type. */
  method ReadTag(dAtA: Bytes, iNdEx: nat) returns (r: Result<(int, nat, nat), Error>)
    requires iNdEx <= |dAtA|
    ensures r == match ReadVarint(dAtA[iNdEx..])
                 case Err(e) => Err(e)
                 case Ok((wire, n)) =>
                   var fieldNum := ToInt32(ToUint64(wire) / 8);
                   if wire % 8 == 4 then Err(EndGroupForNonGroup)
                   else if fieldNum <= 0 then Err(IllegalTag)
                   else Ok((fieldNum, wire % 8, iNdEx + n))
    ensures r.Ok? ==> iNdEx < r.value.2 <= |dAtA|
  {
    hide ReadVarint, Pow2;
    Pow2Of64();
    var wire :- ReadBits(dAtA, iNdEx, 64);
    var fieldNum, wireType := ToInt32(wire.0 / 8), wire.0 % 8;
    if wireType == 4 {
      return Err(EndGroupForNonGroup);
    }
    if fieldNum <= 0 {
      return Err(IllegalTag);
    }
    return Ok((fieldNum, wireType, wire.1));
  }

  /** A varint field held in 32 bits, read as the bits of an int32. */
  method ReadInt32(dAtA: Bytes, iNdEx: nat) returns (r: Result<(Int32, nat), Error>)
    requires iNdEx <= |dAtA|
    ensures r == match ReadVarint(dAtA[iNdEx..])
                 case Err(e) => Err(e)
                 case Ok((v, n)) => Ok((ToInt32(v), iNdEx + n))
    ensures r.Ok? ==> iNdEx < r.value.1 <= |dAtA|
  {
    hide ReadVarint, Pow2;
    Pow2Of64();
    var bits :- ReadBits(dAtA, iNdEx, 32);
    return Ok((ToInt32(bits.0), bits.1));
  }

  /** What decoding from `i` on amounts to, after one iteration. */
  lemma DecodeUnfolds<F>(k: Desc<F>, m: Message<F>, dAtA: Bytes, i: nat)
    requires i < |dAtA|
    ensures Decode(k, m, dAtA[i..])
         == match Step(k, m, dAtA[i..])
            case Err(e) => Err(e)
            case Ok((m', n)) => Decode(k, m', dAtA[i + n..])
  {
    hide Step;
    var step := Step(k, m, dAtA[i..]);
    if step.Ok? {
      assert dAtA[i..][step.value.1..] == dAtA[i + step.value.1..];
    }
  }

  /** A legal tag has been read: these are its parts, and where it ends. */
  predicate Tagged(dAtA: Bytes, i: nat, fieldNum: int, wireType: nat, at: nat)
    requires i <= |dAtA|
  {
    match ReadVarint(dAtA[i..])
    case Err(_) => false
    case Ok((wire, n)) =>
      fieldNum == ToInt32(ToUint64(wire) / 8) > 0 && wireType == wire % 8 != 4 && i < at == i + n <= |dAtA|
  }

  /** Once the tag is read, the rest of an iteration depends on what field it names. */
  lemma StepAfterTag<F>(k: Desc<F>, m: Message<F>, dAtA: Bytes, i: nat, fieldNum: int, wireType: nat, at: nat)
    requires i < |dAtA| && Tagged(dAtA, i, fieldNum, wireType, at)
    ensures Step(k, m, dAtA[i..])
         == if k.kind(fieldNum) == Unknown then
              match ReadUnknown(dAtA[i..])
              case Err(e) => Err(e)
              case Ok(s) => Ok((m.(unrecognized := m.unrecognized + dAtA[i..i + s]), s))
            else if wireType != WireType(k.kind(fieldNum)) then Err(WrongWireType)
            else
              match ReadPayload(k.kind(fieldNum), dAtA[at..])
              case Err(e) => Err(e)
              case Ok((p, n)) =>
                match k.store(m.fields, fieldNum, p)
                case Err(e) => Err(e)
                case Ok(f) => Ok((m.(fields := f), at + n - i))
  {
    hide ReadVarint, Skip, ReadPayload;
    assert dAtA[i..][at - i..] == dAtA[at..];
    if ReadUnknown(dAtA[i..]).Ok? {
      var s := ReadUnknown(dAtA[i..]).value;
      assert dAtA[i..][..s] == dAtA[i..i + s];
    }
  }

  /** An iteration fails with its tag. */
  lemma StepWithoutTag<F>(k: Desc<F>, m: Message<F>, d: Bytes)
    ensures ReadVarint(d).Err? ==> Step(k, m, d) == Err(ReadVarint(d).error)
    ensures ReadVarint(d).Ok? && ReadVarint(d).value.0 % 8 == 4 ==> Step(k, m, d) == Err(EndGroupForNonGroup)
    ensures ReadVarint(d).Ok? && ReadVarint(d).value.0 % 8 != 4 && ToInt32(ToUint64(ReadVarint(d).value.0) / 8) <= 0
            ==> Step(k, m, d) == Err(IllegalTag)
  {
    hide ReadVarint;
  }

  lemma DecodeNothing<F>(k: Desc<F>, m: Message<F>)
    ensures Decode(k, m, []) == Ok(m)
  {}

  // ---------- The branches of a decoder's switch ----------

  method StringField(dAtA: Bytes, at: nat, wireType: nat) returns (r: Result<(Bytes, nat), Error>)
    requires at <= |dAtA| <= MAX_LEN
    ensures if wireType != 2 then r == Err(WrongWireType)
            else Agrees(r, match ReadChunk(dAtA[at..])
                           case Ok((bs, n)) => Ok((bs, at + n))
                           case Err(e) => Err(e))
  {
    hide ReadVarint;
    if wireType != 2 {
      return Err(WrongWireType);
    }
    var slice :- ReadSlice(dAtA, at);
    return Ok((dAtA[slice.0..slice.1], slice.1));
  }

  method Int32Field(dAtA: Bytes, at: nat, wireType: nat) returns (r: Result<(Int32, nat), Error>)
    requires at <= |dAtA| <= MAX_LEN
    ensures if wireType != 0 then r == Err(WrongWireType)
            else r == match ReadVarint(dAtA[at..])
                      case Ok((v, n)) => Ok((ToInt32(v), at + n))
                      case Err(e) => Err(e)
  {
    hide ReadVarint;
    if wireType != 0 {
      return Err(WrongWireType);
    }
    r := ReadInt32(dAtA, at);
  }

  method Fixed64Field(dAtA: Bytes, at: nat, wireType: nat) returns (r: Result<(Uint64, nat), Error>)
    requires at <= |dAtA| <= MAX_LEN
    ensures if wireType != 1 then r == Err(WrongWireType)
            else r == match ReadPayload(Fixed, dAtA[at..])
                      case Ok((p, n)) => Ok((p.raw, at + n))
                      case Err(e) => Err(e)
  {
    hide ReadPayload;
    if wireType != 1 {
      return Err(WrongWireType);
    }
    r := ReadFixed64(dAtA, at);
  }

  /** What one iteration reports: the next index, with the message as the step leaves it, or the
      step's error, up to the wrapped lengths that `Agrees` describes. */
  predicate StepReports<F(==)>(r: Result<nat, Error>, step: Result<(Message<F>, nat), Error>, now: Message<F>, i: nat) {
    match r
    case Ok(next) => next > i && step == Ok((now, next - i))
    case Err(e) => step.Err? && (e == step.error || (e == InvalidLength && step.error == UnexpectedEOF))
  }
}
