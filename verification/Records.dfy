/**
 Well-formed records of the wire format as a grammar: an independent description of what
 `Wire.Skip` passes over, groups nested to any depth included.
 */
module Records {
  import opened Results
  import opened Wire

  datatype Record =
    | VarintRecord(num: nat, value: Uint64)
    | Fixed64Record(num: nat, bits: Uint64)
    | ChunkRecord(num: nat, chunk: Bytes)
    | Group(num: nat, members: seq<Record>)
    | Fixed32Record(num: nat, word: Uint32)

  /** Field numbers are positive and fit the int32 they are read into. */
  predicate LegalNumber(num: nat) {
    0 < num < TWO_31
  }

  ghost predicate Legal(r: Record) {
    LegalNumber(r.num) &&
    match r
    case ChunkRecord(_, chunk) => |chunk| < TWO_63
    case Group(_, members) => forall m <- members :: Legal(m)
    case _ => true
  }

  function Tag(num: nat, wireType: nat): Bytes {
    Varint(8 * num + wireType)
  }

  function Encode(r: Record): (bs: Bytes)
    ensures |bs| > 0
  {
    match r
    case VarintRecord(n, v) => Tag(n, 0) + Varint(v)
    case Fixed64Record(n, v) => Tag(n, 1) + Little(v, 8)
    case ChunkRecord(n, c) => Tag(n, 2) + Chunk(c)
    case Group(n, ms) => Tag(n, 3) + (EncodeAll(ms) + Tag(n, 4))
    case Fixed32Record(n, v) => Tag(n, 5) + Little(v, 4)
  }

  function EncodeAll(rs: seq<Record>): Bytes {
    if rs == [] then [] else Encode(rs[0]) + EncodeAll(rs[1..])
  }

  lemma TagNumber(num: nat, wireType: nat)
    requires LegalNumber(num) && wireType < 8
    ensures ToInt32(ToUint64(8 * num + wireType) / 8) == num
    ensures (8 * num + wireType) % 8 == wireType
    ensures 8 * num + wireType < TWO_64
  {
    assert 8 * num + wireType < TWO_64;
  }

  /** A tag is read back as its field number and wire type. */
  lemma TagRoundTrip(num: nat, wireType: nat, rest: Bytes)
    requires LegalNumber(num) && wireType < 8
    ensures ReadVarint(Tag(num, wireType) + rest) == Ok((8 * num + wireType, |Tag(num, wireType)|))
    ensures ToInt32(ToUint64(8 * num + wireType) / 8) == num
    ensures (8 * num + wireType) % 8 == wireType
  {
    TagNumber(num, wireType);
    VarintRoundTrip(8 * num + wireType, rest);
  }

  /** A payload of the wire type, as far as the skip looks at it. */
  predicate Skippable(wireType: nat, body: Bytes, rest: Bytes, depth: nat) {
    match wireType
    case 0 => ReadVarint(body + rest).Ok? && ReadVarint(body + rest).value.1 == |body|
    case 1 => |body| == 8
    case 2 =>
      var r := ReadVarint(body + rest);
      r.Ok? && ToUint64(r.value.0) < TWO_63 && r.value.1 + ToUint64(r.value.0) == |body|
    case 3 => body == []
    case 4 => body == [] && depth > 0
    case 5 => |body| == 4
    case _ => false
  }

  /** What `SkipOne` does once the tag is read. */
  lemma SkipsPayload(d: Bytes, wire: nat, n: nat, body: Bytes, rest: Bytes, depth: nat)
    requires ReadVarint(d) == Ok((wire, n)) && n <= |d| && d[n..] == body + rest
    requires Skippable(wire % 8, body, rest, depth)
    ensures SkipOne(d, depth)
         == Ok((n + |body|, if wire % 8 == 3 then depth + 1 else if wire % 8 == 4 then depth - 1 else depth))
  {
    hide ReadVarint, ToUint64;
  }

  lemma SkipsTagged(num: nat, wireType: nat, body: Bytes, rest: Bytes, depth: nat)
    requires LegalNumber(num) && wireType < 8 && Skippable(wireType, body, rest, depth)
    ensures SkipOne((Tag(num, wireType) + body) + rest, depth)
         == Ok((
              |Tag(num, wireType) + body|,
              if wireType == 3 then depth + 1 else if wireType == 4 then depth - 1 else depth))
  {
    hide Tag, ReadVarint, ToInt32, ToUint64, SkipOne, Skippable;
    var tag := Tag(num, wireType);
    TagRoundTrip(num, wireType, body + rest);
    var d := tag + (body + rest);
    assert (tag + body) + rest == d && d[|tag|..] == body + rest;
    SkipsPayload(d, 8 * num + wireType, |tag|, body, rest, depth);
  }

  /** A record that is not a group is passed over in one step. */
  lemma SkipsPlain(r: Record, rest: Bytes, depth: nat)
    requires Legal(r) && !r.Group?
    ensures SkipOne(Encode(r) + rest, depth) == Ok((|Encode(r)|, depth))
  {
    match r
    case VarintRecord(n, v) =>
      VarintRoundTrip(v, rest);
      SkipsTagged(n, 0, Varint(v), rest, depth);
    case Fixed64Record(n, v) =>
      SkipsTagged(n, 1, Little(v, 8), rest, depth);
    case ChunkRecord(n, c) =>
      VarintRoundTrip(|c|, c + rest);
      assert Varint(|c|) + (c + rest) == Chunk(c) + rest;
      SkipsTagged(n, 2, Chunk(c), rest, depth);
    case Fixed32Record(n, v) =>
      SkipsTagged(n, 5, Little(v, 4), rest, depth);
  }

  /** One step of the skip, in terms of what it leaves. */
  lemma SkipStep(a: Bytes, rest: Bytes, depth: nat, depth': nat)
    requires a != [] && SkipOne(a + rest, depth) == Ok((|a|, depth'))
    requires depth' == 0 || Skip(rest, depth').Ok?
    ensures Skip(a + rest, depth) == Ok(|a| + (if depth' == 0 then 0 else Skip(rest, depth').value))
  {
    assert (a + rest)[|a|..] == rest;
  }

  /** Inside a group, whole records are passed over and the depth comes back to what it was. */
  lemma {:induction false} SkipsMembers(rs: seq<Record>, rest: Bytes, depth: nat)
    requires forall r <- rs :: Legal(r)
    requires depth > 0 && Skip(rest, depth).Ok?
    ensures Skip(EncodeAll(rs) + rest, depth) == Ok(|EncodeAll(rs)| + Skip(rest, depth).value)
    decreases rs, 1
  {
    hide Skip, SkipOne, Encode, Varint;
    if rs == [] {
      assert EncodeAll(rs) + rest == rest;
    } else {
      var tail := EncodeAll(rs[1..]) + rest;
      SkipsMembers(rs[1..], rest, depth);
      SkipsRecord(rs[0], tail, depth);
      assert EncodeAll(rs) + rest == Encode(rs[0]) + tail;
    }
  }

  lemma {:induction false} SkipsRecord(r: Record, rest: Bytes, depth: nat)
    requires Legal(r)
    requires depth > 0 ==> Skip(rest, depth).Ok?
    ensures Skip(Encode(r) + rest, depth)
         == Ok(|Encode(r)| + (if depth == 0 then 0 else Skip(rest, depth).value))
    decreases r, 0
  {
    hide Skip, SkipOne, Varint, ReadVarint;
    if r.Group? {
      var open, close := Tag(r.num, 3), Tag(r.num, 4);
      SkipsTagged(r.num, 4, [], rest, depth + 1);
      assert close + [] == close;
      SkipStep(close, rest, depth + 1, depth);
      SkipsMembers(r.members, close + rest, depth + 1);
      var inner := EncodeAll(r.members) + (close + rest);
      SkipsTagged(r.num, 3, [], inner, depth);
      assert open + [] == open;
      SkipStep(open, inner, depth, depth + 1);
      assert Encode(r) + rest == open + inner;
    } else {
      SkipsPlain(r, rest, depth);
      SkipStep(Encode(r), rest, depth, depth);
    }
  }

  /** The skip consumes exactly one record, whatever its kind and however deep its groups nest. */
  lemma SkipConsumesRecord(r: Record, rest: Bytes)
    requires Legal(r)
    ensures Skip(Encode(r) + rest) == Ok(|Encode(r)|)
  {
    SkipsRecord(r, rest, 0);
  }
}
