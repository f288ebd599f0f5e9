/**
 The loop every generated `Unmarshal` shares, over a description of one message type: which
 field numbers it knows, how each is carried on the wire, and what storing one does to the
 message.  The laws of decoding are proved here for every description.
 */
module Decoding {
  import opened Results
  import opened Wire
  import opened Records

  /** A message: its declared fields, and the records it did not recognize, kept verbatim. */
  datatype Message<+F> = Message(fields: F, unrecognized: Bytes)

  /** How a known field is carried.  `MapEntry` is a chunk that holds a string key and value. */
  datatype Kind = Unknown | Scalar | Fixed | Delimited | MapEntry

  datatype Payload =
    | Number(raw: nat)
    | Contents(chunk: Bytes)
    | Entry(key: Bytes, val: Bytes)

  datatype Desc<!F> = Desc(
    kind: int -> Kind,
    store: (F, int, Payload) -> Result<F, Error>)

  function WireType(kind: Kind): nat {
    match kind
    case Scalar => 0
    case Fixed => 1
    case _ => 2
  }

  // ---------- Map entries ----------

  /** One record of a map entry: the key (1), the value (2) or something else, which is skipped.
      The key and the value may reach past the entry's own end, up to the end of the buffer; only
      a skipped record is held to the entry. */
  function EntryOne(d: Bytes, left: nat, key: Bytes, val: Bytes): (r: Result<(Bytes, Bytes, nat), Error>)
    ensures r.Ok? ==> 0 < r.value.2 && (r.value.2 <= |d| || r.value.2 <= left)
  {
    var (wire, n) :- ReadVarint(d);
    var fieldNum := ToInt32(ToUint64(wire) / 8);
    if fieldNum == 1 then
      var (s, n') :- ReadChunk(d[n..]);
      Ok((s, val, n + n'))
    else if fieldNum == 2 then
      var (s, n') :- ReadChunk(d[n..]);
      Ok((key, s, n + n'))
    else
      var s :- Skip(d);
      if s > left then Err(UnexpectedEOF) else Ok((key, val, s))
  }

  /** The entry loop: runs while bytes of the entry are left. */
  function EntryLoop(d: Bytes, left: nat, key: Bytes, val: Bytes): Result<(Bytes, Bytes), Error>
    requires left <= |d|
    decreases |d|
  {
    if left == 0 then Ok((key, val)) else
    var (key', val', n) :- EntryOne(d, left, key, val);
    if n >= left then Ok((key', val')) else EntryLoop(d[n..], left - n, key', val')
  }

  function ReadEntry(d: Bytes): (r: Result<(Payload, nat), Error>)
    ensures r.Ok? ==> 0 < r.value.1 <= |d| && r.value.0.Entry?
  {
    var (bs, n) :- ReadChunk(d);
    var (k, v) :- EntryLoop(d[n - |bs|..], |bs|, [], []);
    Ok((Entry(k, v), n))
  }

  // ---------- One field, and the whole message ----------

  function ReadPayload(kind: Kind, d: Bytes): (r: Result<(Payload, nat), Error>)
    requires kind != Unknown
    ensures r.Ok? ==> 0 < r.value.1 <= |d|
    ensures r.Ok? && r.value.0.Contents? ==> |r.value.0.chunk| < |d|
  {
    match kind
    case Scalar =>
      var (v, n) :- ReadVarint(d);
      Ok((Number(v), n))
    case Fixed =>
      if |d| < 8 then Err(UnexpectedEOF) else Ok((Number(FromLittle(d[..8])), 8))
    case Delimited =>
      var (bs, n) :- ReadChunk(d);
      Ok((Contents(bs), n))
    case MapEntry => ReadEntry(d)
  }

  function ReadUnknown(d: Bytes): (r: Result<nat, Error>)
    ensures r.Ok? ==> 0 < r.value <= |d|
  {
    var s :- Skip(d);
    if s > |d| then Err(UnexpectedEOF) else Ok(s)
  }

  /** One iteration of the decoding loop.  Every success consumes at least one byte and never
      more than there are. */
  function Step<F>(k: Desc<F>, m: Message<F>, d: Bytes): (r: Result<(Message<F>, nat), Error>)
    ensures r.Ok? ==> 0 < r.value.1 <= |d|
  {
    var (wire, n) :- ReadVarint(d);
    var fieldNum := ToInt32(ToUint64(wire) / 8);
    var wireType := wire % 8;
    if wireType == 4 then Err(EndGroupForNonGroup)
    else if fieldNum <= 0 then Err(IllegalTag)
    else if k.kind(fieldNum) == Unknown then
      var s :- ReadUnknown(d);
      Ok((m.(unrecognized := m.unrecognized + d[..s]), s))
    else if wireType != WireType(k.kind(fieldNum)) then Err(WrongWireType)
    else
      var (p, n') :- ReadPayload(k.kind(fieldNum), d[n..]);
      var f :- k.store(m.fields, fieldNum, p);
      Ok((m.(fields := f), n + n'))
  }

  function Decode<F>(k: Desc<F>, m: Message<F>, d: Bytes): Result<Message<F>, Error>
    decreases |d|
  {
    if d == [] then Ok(m) else
    var (m', n) :- Step(k, m, d);
    Decode(k, m', d[n..])
  }

  // ---------- Reading is not affected by what follows ----------

  lemma EntryOneExtends(d: Bytes, e: Bytes, left: nat, key: Bytes, val: Bytes)
    requires EntryOne(d, left, key, val).Ok?
    ensures EntryOne(d + e, left, key, val) == EntryOne(d, left, key, val)
  {
    hide Skip, ReadVarint, ReadChunk;
    ReadVarintExtends(d, e);
    var n := ReadVarint(d).value.1;
    assert (d + e)[n..] == d[n..] + e;
    if ReadChunk(d[n..]).Ok? {
      ReadChunkExtends(d[n..], e);
    }
    if Skip(d).Ok? {
      SkipExtends(d, e);
    }
  }

  lemma {:induction false} EntryLoopExtends(d: Bytes, e: Bytes, left: nat, key: Bytes, val: Bytes)
    requires left <= |d| && EntryLoop(d, left, key, val).Ok?
    ensures EntryLoop(d + e, left, key, val) == EntryLoop(d, left, key, val)
    decreases |d|
  {
    hide EntryOne;
    if left > 0 {
      EntryOneExtends(d, e, left, key, val);
      var (key', val', n) := EntryOne(d, left, key, val).value;
      if n < left {
        assert (d + e)[n..] == d[n..] + e;
        EntryLoopExtends(d[n..], e, left - n, key', val');
      }
    }
  }

  lemma ReadPayloadExtends(kind: Kind, d: Bytes, e: Bytes)
    requires kind != Unknown && ReadPayload(kind, d).Ok?
    ensures ReadPayload(kind, d + e) == ReadPayload(kind, d)
  {
    hide ReadVarint, ReadChunk, EntryLoop, FromLittle;
    match kind
    case Scalar => ReadVarintExtends(d, e);
    case Fixed => assert (d + e)[..8] == d[..8];
    case Delimited => ReadChunkExtends(d, e);
    case MapEntry =>
      ReadChunkExtends(d, e);
      var (bs, n) := ReadChunk(d).value;
      assert (d + e)[n - |bs|..] == d[n - |bs|..] + e;
      EntryLoopExtends(d[n - |bs|..], e, |bs|, [], []);
  }

  lemma StepExtends<F>(k: Desc<F>, m: Message<F>, d: Bytes, e: Bytes)
    requires Step(k, m, d).Ok?
    ensures Step(k, m, d + e) == Step(k, m, d)
  {
    hide ReadVarint, Skip, ReadPayload;
    ReadVarintExtends(d, e);
    var (wire, n) := ReadVarint(d).value;
    var fieldNum := ToInt32(ToUint64(wire) / 8);
    assert (d + e)[n..] == d[n..] + e;
    if k.kind(fieldNum) == Unknown {
      SkipExtends(d, e);
      var s := Skip(d).value;
      assert (d + e)[..s] == d[..s];
    } else {
      ReadPayloadExtends(k.kind(fieldNum), d[n..], e);
    }
  }

  /** Last one wins, whatever the fields: once `a` decodes, decoding `a` followed by `b` is
      decoding `b` on top of what `a` left. */
  lemma {:induction false} DecodeConcat<F>(k: Desc<F>, m: Message<F>, a: Bytes, b: Bytes)
    requires Decode(k, m, a).Ok?
    ensures Decode(k, m, a + b) == Decode(k, Decode(k, m, a).value, b)
    decreases |a|
  {
    hide Step;
    if a == [] {
      assert a + b == b;
    } else {
      StepExtends(k, m, a, b);
      var (m', n) := Step(k, m, a).value;
      assert (a + b)[n..] == a[n..] + b;
      DecodeConcat(k, m', a[n..], b);
    }
  }

  // ---------- Writing one field ----------

  function EncodeEntry(key: Bytes, val: Bytes): Bytes {
    [0x0a] + Chunk(key) + ([0x12] + Chunk(val))
  }

  function EncodePayload(p: Payload, kind: Kind): Bytes {
    match p
    case Number(v) => if kind == Fixed then Little(v, 8) else Varint(v)
    case Contents(bs) => Chunk(bs)
    case Entry(k, v) => Chunk(EncodeEntry(k, v))
  }

  /** A field as the encoder writes it: the tag, then the payload. */
  function EncodeField(num: nat, kind: Kind, p: Payload): Bytes {
    Tag(num, WireType(kind)) + EncodePayload(p, kind)
  }

  /** A payload the encoder can produce for a field of this kind. */
  predicate Fits(kind: Kind, p: Payload) {
    match kind
    case Unknown => false
    case Scalar => p.Number? && p.raw < TWO_64
    case Fixed => p.Number? && p.raw < TWO_64
    case Delimited => p.Contents? && |p.chunk| < TWO_63
    case MapEntry => p.Entry? && |EncodeEntry(p.key, p.val)| < TWO_63
  }

  /** The key or the value of an entry is read back as it was written. */
  lemma EntryOneRoundTrip(num: nat, s: Bytes, rest: Bytes, left: nat, key: Bytes, val: Bytes)
    requires num == 1 || num == 2
    requires |s| < TWO_63
    ensures EntryOne([8 * num + 2] + Chunk(s) + rest, left, key, val)
         == Ok((if num == 1 then s else key, if num == 2 then s else val, |[8 * num + 2] + Chunk(s)|))
  {
    hide Chunk, ReadChunk, Skip, ReadVarint;
    var tag := Tag(num, 2);
    assert tag == [8 * num + 2];
    TagRoundTrip(num, 2, Chunk(s) + rest);
    assert [8 * num + 2] + Chunk(s) + rest == tag + (Chunk(s) + rest);
    assert (tag + (Chunk(s) + rest))[1..] == Chunk(s) + rest;
    ChunkRoundTrip(s, rest);
  }

  lemma EntryLoopRoundTrip(key: Bytes, val: Bytes, rest: Bytes)
    requires |EncodeEntry(key, val)| < TWO_63
    ensures EntryLoop(EncodeEntry(key, val) + rest, |EncodeEntry(key, val)|, [], []) == Ok((key, val))
  {
    hide EntryOne, Chunk;
    var first, second := [0x0a] + Chunk(key), [0x12] + Chunk(val);
    var d := EncodeEntry(key, val) + rest;
    EntryOneRoundTrip(1, key, second + rest, |first + second|, [], []);
    assert d == first + (second + rest);
    assert d[|first|..] == second + rest;
    EntryOneRoundTrip(2, val, rest, |second|, key, []);
  }

  lemma PayloadRoundTrip(kind: Kind, p: Payload, rest: Bytes)
    requires Fits(kind, p)
    ensures ReadPayload(kind, EncodePayload(p, kind) + rest) == Ok((p, |EncodePayload(p, kind)|))
  {
    hide ReadVarint, ReadChunk, Chunk, EntryLoop, EncodeEntry, Little, FromLittle;
    match kind
    case Scalar => VarintRoundTrip(p.raw, rest);
    case Fixed =>
      EightBytesAreUint64();
      LittleRoundTrip(p.raw, 8);
      assert (Little(p.raw, 8) + rest)[..8] == Little(p.raw, 8);
    case Delimited => ChunkRoundTrip(p.chunk, rest);
    case MapEntry => EntryRoundTrip(p.key, p.val, rest);
  }

  lemma EntryRoundTrip(key: Bytes, val: Bytes, rest: Bytes)
    requires |EncodeEntry(key, val)| < TWO_63
    ensures ReadEntry(Chunk(EncodeEntry(key, val)) + rest)
         == Ok((Entry(key, val), |Chunk(EncodeEntry(key, val))|))
  {
    hide EntryLoop, EncodeEntry, ReadChunk, Varint;
    var bs := EncodeEntry(key, val);
    ChunkRoundTrip(bs, rest);
    var d := Chunk(bs) + rest;
    assert d[|Chunk(bs)| - |bs|..] == bs + rest;
    EntryLoopRoundTrip(key, val, rest);
  }

  /** A field the encoder wrote is one step of the decoder, which stores its payload. */
  lemma StepsOverField<F>(k: Desc<F>, m: Message<F>, num: nat, p: Payload, rest: Bytes)
    requires LegalNumber(num) && Fits(k.kind(num), p)
    requires k.store(m.fields, num, p).Ok?
    ensures var bs := EncodeField(num, k.kind(num), p);
            bs != [] &&
            Step(k, m, bs + rest) == Ok((m.(fields := k.store(m.fields, num, p).value), |bs|))
  {
    hide ReadVarint, Skip, ReadPayload, EncodePayload;
    var kind := k.kind(num);
    var tag, body := Tag(num, WireType(kind)), EncodePayload(p, kind);
    TagRoundTrip(num, WireType(kind), body + rest);
    assert EncodeField(num, kind, p) + rest == tag + (body + rest);
    assert (tag + (body + rest))[|tag|..] == body + rest;
    PayloadRoundTrip(kind, p, rest);
  }

  lemma DecodesField<F>(k: Desc<F>, m: Message<F>, num: nat, p: Payload, rest: Bytes)
    requires LegalNumber(num) && Fits(k.kind(num), p)
    requires k.store(m.fields, num, p).Ok?
    ensures Decode(k, m, EncodeField(num, k.kind(num), p) + rest)
         == Decode(k, m.(fields := k.store(m.fields, num, p).value), rest)
  {
    hide Step, EncodeField;
    var bs := EncodeField(num, k.kind(num), p);
    StepsOverField(k, m, num, p, rest);
    assert (bs + rest)[|bs|..] == rest;
  }

  // ---------- Unknown fields ----------

  /** Bytes made only of whole records whose field numbers the message does not know. */
  predicate Foreign<F>(k: Desc<F>, d: Bytes)
    decreases |d|
  {
    d == [] || (ForeignHead(k, d) && Foreign(k, d[ReadUnknown(d).value..]))
  }

  predicate ForeignHead<F>(k: Desc<F>, d: Bytes) {
    match ReadVarint(d)
    case Err(_) => false
    case Ok((wire, _)) =>
      var fieldNum := ToInt32(ToUint64(wire) / 8);
      wire % 8 != 4 && fieldNum > 0 && k.kind(fieldNum) == Unknown && ReadUnknown(d).Ok?
  }

  lemma ForeignHeadExtends<F>(k: Desc<F>, d: Bytes, e: Bytes)
    requires ForeignHead(k, d)
    ensures ForeignHead(k, d + e) && ReadUnknown(d + e) == ReadUnknown(d)
  {
    hide ReadVarint, Skip;
    ReadVarintExtends(d, e);
    SkipExtends(d, e);
  }

  lemma {:induction false} ForeignConcat<F>(k: Desc<F>, a: Bytes, b: Bytes)
    requires Foreign(k, a) && Foreign(k, b)
    ensures Foreign(k, a + b)
    decreases |a|
  {
    hide ForeignHead, ReadUnknown;
    if a == [] {
      assert a + b == b;
    } else {
      ForeignHeadExtends(k, a, b);
      assert ReadUnknown(a).Ok? by { ForeignHeadReads(k, a); }
      var n := ReadUnknown(a).value;
      assert (a + b)[n..] == a[n..] + b;
      ForeignConcat(k, a[n..], b);
    }
  }

  lemma ForeignHeadReads<F>(k: Desc<F>, a: Bytes)
    requires ForeignHead(k, a)
    ensures ReadUnknown(a).Ok?
  {}

  /** Foreign bytes are kept verbatim. */
  lemma {:induction false} DecodesForeign<F>(k: Desc<F>, m: Message<F>, u: Bytes)
    requires Foreign(k, u)
    ensures Decode(k, m, u) == Ok(m.(unrecognized := m.unrecognized + u))
    decreases |u|
  {
    hide ReadVarint, ReadUnknown, ReadPayload;
    if u != [] {
      var n := ReadUnknown(u).value;
      DecodesForeign(k, m.(unrecognized := m.unrecognized + u[..n]), u[n..]);
      assert m.unrecognized + u[..n] + u[n..] == m.unrecognized + u;
    } else {
      assert m.unrecognized + u == m.unrecognized;
    }
  }

  /** Whatever is decoded, the records kept as unrecognized are foreign. */
  lemma {:induction false} UnrecognizedStaysForeign<F>(k: Desc<F>, m: Message<F>, d: Bytes)
    requires Foreign(k, m.unrecognized) && Decode(k, m, d).Ok?
    ensures Foreign(k, Decode(k, m, d).value.unrecognized)
    decreases |d|
  {
    hide Step;
    if d != [] {
      var (m', n) := Step(k, m, d).value;
      StepKeepsForeign(k, m, d);
      UnrecognizedStaysForeign(k, m', d[n..]);
    }
  }

  lemma StepKeepsForeign<F>(k: Desc<F>, m: Message<F>, d: Bytes)
    requires Foreign(k, m.unrecognized) && Step(k, m, d).Ok?
    ensures Foreign(k, Step(k, m, d).value.0.unrecognized)
  {
    hide Skip, ReadVarint, ReadPayload, Foreign;
    var (wire, n) := ReadVarint(d).value;
    if k.kind(ToInt32(ToUint64(wire) / 8)) == Unknown {
      UnknownRecordIsForeign(k, d);
      ForeignConcat(k, m.unrecognized, d[..Skip(d).value]);
    }
  }

  lemma UnknownRecordIsForeign<F>(k: Desc<F>, d: Bytes)
    requires ForeignHead(k, d)
    ensures ReadUnknown(d).Ok? && Foreign(k, d[..ReadUnknown(d).value])
  {
    hide Skip, ReadVarint;
    var s := Skip(d).value;
    SkipPrefix(d, 0, s);
    SkipReadsTag(d);
    ReadVarintPrefix(d, 0, s);
    assert Foreign(k, d[..s][s..]);
  }
}
