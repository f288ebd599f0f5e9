/**
 How far the decoding of a map entry reaches.  The generated loop holds a skipped record to the
 entry, but lets the key and the value run on to the end of the whole buffer.
 */
module MapEntries {
  import opened Results
  import opened Wire
  import opened Records
  import opened Decoding

  /** Every record the entry loop reads ends within the entry. */
  predicate Contained(d: Bytes, left: nat, key: Bytes, val: Bytes)
    requires left <= |d|
    decreases |d|
  {
    left == 0 ||
    match EntryOne(d, left, key, val)
    case Err(_) => false
    case Ok((key', val', n)) => n <= left && Contained(d[n..], left - n, key', val')
  }

  lemma ReadChunkPrefix(d: Bytes, t: nat)
    requires ReadChunk(d).Ok? && ReadChunk(d).value.1 <= t <= |d|
    ensures ReadChunk(d[..t]) == ReadChunk(d)
  {
    hide ReadVarint;
    var (bs, n) := ReadChunk(d).value;
    ReadVarintPrefix(d, 0, t);
    assert d[..t][n - |bs|..n] == d[n - |bs|..n];
  }

  /** A record within the entry needs nothing beyond the entry. */
  lemma EntryOnePrefix(d: Bytes, left: nat, key: Bytes, val: Bytes)
    requires left <= |d|
    requires EntryOne(d, left, key, val).Ok? && EntryOne(d, left, key, val).value.2 <= left
    ensures EntryOne(d[..left], left, key, val) == EntryOne(d, left, key, val)
  {
    hide ReadVarint, ReadChunk, Skip;
    var (wire, n) := ReadVarint(d).value;
    var fieldNum := ToInt32(ToUint64(wire) / 8);
    if fieldNum != 1 && fieldNum != 2 {
      SkipReadsTag(d);
      SkipPrefix(d, 0, left);
    }
    ReadVarintPrefix(d, 0, left);
    assert d[..left][n..] == d[n..][..left - n];
    if fieldNum == 1 || fieldNum == 2 {
      ReadChunkPrefix(d[n..], left - n);
    }
  }

  /** One that reaches past it cannot be read from the entry alone. */
  lemma EntryOneCut(d: Bytes, left: nat, key: Bytes, val: Bytes)
    requires left <= |d|
    requires EntryOne(d, left, key, val).Ok? && EntryOne(d, left, key, val).value.2 > left
    ensures EntryOne(d[..left], left, key, val).Err?
  {
    hide EntryOne;
    assert d[..left] + d[left..] == d;
    if EntryOne(d[..left], left, key, val).Ok? {
      EntryOneExtends(d[..left], d[left..], left, key, val);
    }
  }

  /** An entry that decodes would decode from its own bytes, and to the same, exactly when it is
      contained.  Otherwise its own bytes do not decode at all. */
  lemma {:induction false} OwnBytesSufficeIff(d: Bytes, left: nat, key: Bytes, val: Bytes)
    requires left <= |d| && EntryLoop(d, left, key, val).Ok?
    ensures EntryLoop(d[..left], left, key, val) == EntryLoop(d, left, key, val) <==> Contained(d, left, key, val)
    ensures EntryLoop(d[..left], left, key, val).Ok? <==> Contained(d, left, key, val)
    decreases |d|
  {
    hide EntryOne;
    if left > 0 {
      var (key', val', n) := EntryOne(d, left, key, val).value;
      if n > left {
        EntryOneCut(d, left, key, val);
      } else {
        EntryOnePrefix(d, left, key, val);
        assert d[..left][n..] == d[n..][..left - n];
        if n < left {
          OwnBytesSufficeIff(d[n..], left - n, key', val');
        }
      }
    }
  }

  /** The same of the whole field: its length and its own bytes say all that was decoded, exactly
      when the entry is contained. */
  lemma ReadEntryNeedsNoMoreIff(d: Bytes)
    requires ReadEntry(d).Ok?
    ensures
      var (bs, n) := ReadChunk(d).value;
      (ReadEntry(d[..n]) == ReadEntry(d) <==> Contained(d[n - |bs|..], |bs|, [], []))
      && (EntryLoop(bs, |bs|, [], []).Ok? <==> Contained(d[n - |bs|..], |bs|, [], []))
  {
    hide ReadVarint, EntryLoop, Contained;
    var (bs, n) := ReadChunk(d).value;
    var body := d[n - |bs|..];
    ReadChunkPrefix(d, n);
    ReadChunkIsIn(d);
    assert body[..|bs|] == bs && d[..n][n - |bs|..] == bs;
    OwnBytesSufficeIff(body, |bs|, [], []);
  }

  lemma ReadChunkIsIn(d: Bytes)
    requires ReadChunk(d).Ok?
    ensures var (bs, n) := ReadChunk(d).value; bs == d[n - |bs|..n]
  {
  }

  /** It does happen: an entry of two bytes, a key that takes two bytes more from behind it. */
  lemma KeyReachesPastEntry()
    ensures EntryLoop([0x0a, 0x02, 0x61, 0x62], 2, [], []) == Ok(([0x61, 0x62], []))
    ensures EntryLoop([0x0a, 0x02], 2, [], []).Err?
    ensures !Contained([0x0a, 0x02, 0x61, 0x62], 2, [], [])
  {
    hide Skip;
    var d: Bytes := [0x0a, 0x02, 0x61, 0x62];
    assert ReadVarint(d) == Ok((0x0a, 1));
    assert d[1..] == [0x02, 0x61, 0x62] && ReadVarint(d[1..]) == Ok((2, 1));
    assert ReadChunk(d[1..]) == Ok((d[1..][1..3], 3)) && d[1..][1..3] == [0x61, 0x62];
    assert EntryOne(d, 2, [], []) == Ok(([0x61, 0x62], [], 4));
    EntryOneCut(d, 2, [], []);
    assert d[..2] == [0x0a, 0x02];
  }

  /** Inside an entry the wire type of the key and the value is not looked at. */
  lemma EntryIgnoresWireType(num: nat, wireType: nat, s: Bytes, rest: Bytes, left: nat, key: Bytes, val: Bytes)
    requires (num == 1 || num == 2) && wireType < 8 && |s| < TWO_63
    ensures
      EntryOne([8 * num + wireType] + (Chunk(s) + rest), left, key, val) ==
        Ok((if num == 1 then s else key, if num == 2 then s else val, 1 + |Chunk(s)|))
  {
    hide Chunk, ReadChunk, Skip, ReadVarint;
    var tag := Tag(num, wireType);
    assert tag == [8 * num + wireType];
    TagRoundTrip(num, wireType, Chunk(s) + rest);
    assert (tag + (Chunk(s) + rest))[1..] == Chunk(s) + rest;
    ChunkRoundTrip(s, rest);
  }

  /** Any other record is passed over, and must end within the entry. */
  lemma OtherRecordsStayInside(r: Record, rest: Bytes, left: nat, key: Bytes, val: Bytes)
    requires Legal(r) && r.num != 1 && r.num != 2
    ensures
      EntryOne(Encode(r) + rest, left, key, val) ==
        if |Encode(r)| <= left then Ok((key, val, |Encode(r)|)) else Err(UnexpectedEOF)
  {
    hide Skip, ReadVarint, ToInt32, ToUint64, Legal;
    SkipConsumesRecord(r, rest);
    RecordStart(r, rest);
  }

  lemma RecordStart(r: Record, rest: Bytes)
    requires Legal(r)
    ensures
      var read := ReadVarint(Encode(r) + rest);
      read.Ok? && ToInt32(ToUint64(read.value.0) / 8) == r.num
  {
    hide ReadVarint, ToInt32, ToUint64, Tag;
    match r
    case VarintRecord(n, v) => StartsWithTag(n, 0, Varint(v), rest);
    case Fixed64Record(n, v) => StartsWithTag(n, 1, Little(v, 8), rest);
    case ChunkRecord(n, c) => StartsWithTag(n, 2, Chunk(c), rest);
    case Group(n, ms) => StartsWithTag(n, 3, EncodeAll(ms) + Tag(n, 4), rest);
    case Fixed32Record(n, v) => StartsWithTag(n, 5, Little(v, 4), rest);
  }

  lemma StartsWithTag(num: nat, wireType: nat, body: Bytes, rest: Bytes)
    requires LegalNumber(num) && wireType < 8
    ensures
      var read := ReadVarint((Tag(num, wireType) + body) + rest);
      read.Ok? && ToInt32(ToUint64(read.value.0) / 8) == num
  {
    hide ReadVarint, ToInt32, ToUint64, Tag;
    TagRoundTrip(num, wireType, body + rest);
    assert (Tag(num, wireType) + body) + rest == Tag(num, wireType) + (body + rest);
  }

  /** A key or a value that is not there is empty. */
  lemma MissingPartsAreEmpty(num: nat, s: Bytes, rest: Bytes)
    requires (num == 1 || num == 2) && 1 + |Chunk(s)| < TWO_63
    ensures
      var bs := [8 * num + 2] + Chunk(s);
      ReadEntry(Chunk(bs) + rest) == Ok((if num == 1 then Entry(s, []) else Entry([], s), |Chunk(bs)|))
    ensures ReadEntry(Chunk([]) + rest) == Ok((Entry([], []), |Chunk([])|))
  {
    hide EntryOne, ReadChunk, Varint;
    var bs := [8 * num + 2] + Chunk(s);
    ChunkRoundTrip(bs, rest);
    ChunkRoundTrip([], rest);
    var d := Chunk(bs) + rest;
    assert d[|Chunk(bs)| - |bs|..] == bs + rest;
    EntryOneRoundTrip(num, s, rest, |bs|, [], []);
  }
}
