/**
 The generated structs of the storage query: a string map written in whatever order Go iterates
 over it, library-coded fields, and a nested message decoded on top of what is already there.
 */
module StorageStructs {
  import opened Results
  import opened Wire
  import opened Decoding
  import opened Encoding
  import opened QueryMessages
  import opened StorageMessages
  import opened Bits
  import opened Cursor
  import opened Tail
  import opened QueryStructs

  class QueryStruct<T, D> {
    const lib: Library<T, D>
    var serviceName: Bytes
    var operationName: Bytes
    var tags: map<Bytes, Bytes>
    var startTimeMin: T
    var startTimeMax: T
    var durationMin: D
    var durationMax: D
    var numTraces: Int32
    var unrecognized: Bytes

    constructor (lib: Library<T, D>)
      ensures Value() == NoQuery(lib) && this.lib == lib
    {
      this.lib := lib;
      serviceName, operationName, tags := [], [], map[];
      startTimeMin, startTimeMax := lib.zeroTime, lib.zeroTime;
      durationMin, durationMax := lib.zeroDuration, lib.zeroDuration;
      numTraces, unrecognized := 0, [];
    }

    function Value(): Message<Query<T, D>>
      reads this
    {
      Message(
        Query(serviceName, operationName, tags, startTimeMin, startTimeMax, durationMin, durationMax, numTraces),
        unrecognized)
    }

    /** One entry: value, key, and the entry's length and tag, from the back. */
    method PutEntry(dAtA: array<Byte>, end: nat, k: Bytes, v: Bytes, ghost was: Bytes, ghost done: Bytes)
      returns (i: nat)
      requires |EncodeField(3, MapEntry, Entry(k, v))| <= end <= dAtA.Length <= MAX_LEN
      requires Filled(dAtA[..], was, end, done)
      modifies dAtA
      ensures i == end - |EncodeField(3, MapEntry, Entry(k, v))|
      ensures Filled(dAtA[..], was, i, EncodeField(3, MapEntry, Entry(k, v)) + done)
    {
      hide Varint, Filled;
      OneByteTag(1, 2);
      OneByteTag(2, 2);
      OneByteTag(3, 2);
      var baseI := end;
      i := PutChunk(dAtA, end, 2, 0x12, v, was, done);
      ghost var second := [0x12] + Chunk(v);
      assert EncodeField(2, Delimited, Contents(v)) == second;
      i := PutChunk(dAtA, i, 1, 0x0a, k, was, second + done);
      assert EncodeField(1, Delimited, Contents(k)) == [0x0a] + Chunk(k);
      ghost var entry := EncodeEntry(k, v);
      assert [0x0a] + Chunk(k) + (second + done) == entry + done;
      i := PutLength(dAtA, i, 3, 0x1a, baseI - i, entry, was, done);
    }

    /** Go visits the keys in an order of its own choosing; `order` is what it came to. */
    method PutTags(dAtA: array<Byte>, end: nat, ghost was: Bytes, ghost done: Bytes)
      returns (i: nat, ghost order: seq<Bytes>)
      requires TagsLength(tags, tags.Keys) <= end <= dAtA.Length <= MAX_LEN
      requires Filled(dAtA[..], was, end, done)
      modifies dAtA
      ensures Enumerates(order, tags)
      ensures i == end - |EncodeTags(tags, order)|
      ensures Filled(dAtA[..], was, i, EncodeTags(tags, order) + done)
    {
      hide EncodeField, Filled, EntryLength, Visited, TagsLength;
      i := end;
      order := [];
      VisitedNothing();
      assert EncodeTags(tags, order) + done == done;
      var keys := tags.Keys;
      assert tags.Keys - keys == {};
      while keys != {}
        invariant keys <= tags.Keys
        invariant Visited(order, tags.Keys - keys)
        invariant i == end - |EncodeTags(tags, order)|
        invariant TagsLength(tags, keys) <= i
        invariant Filled(dAtA[..], was, i, EncodeTags(tags, order) + done)
        decreases keys
      {
        var k :| k in keys;
        TagsLengthWithout(tags, keys, k);
        EntryLengthIs(k, tags[k]);
        ghost var rest := EncodeTags(tags, order) + done;
        i := PutEntry(dAtA, i, k, tags[k], was, rest);
        ghost var field := EncodeField(3, MapEntry, Entry(k, tags[k]));
        VisitedOneMore(order, tags.Keys - keys, k);
        assert tags.Keys - keys + {k} == tags.Keys - (keys - {k});
        EncodeTagsOneMore(tags, order, k);
        assert field + rest == EncodeTags(tags, [k] + order) + done;
        order := [k] + order;
        keys := keys - {k};
      }
      assert tags.Keys - {} == tags.Keys;
      VisitedAll(order, tags);
    }

    method SizeOfTags() returns (n: nat)
      requires TagsLength(tags, tags.Keys) < TWO_63
      ensures n == TagsLength(tags, tags.Keys)
    {
      hide Varint, BitOr, BitLen, EntryLength;
      n := 0;
      var keys := tags.Keys;
      while keys != {}
        invariant keys <= tags.Keys
        invariant n + TagsLength(tags, keys) == TagsLength(tags, tags.Keys)
        decreases keys
      {
        var k :| k in keys;
        TagsLengthWithout(tags, keys, k);
        EntrySize(k, tags[k]);
        SovIsVarintLength(|k|);
        SovIsVarintLength(|tags[k]|);
        var mapEntrySize := 1 + |k| + Sov(|k|) + 1 + |tags[k]| + Sov(|tags[k]|);
        SovIsVarintLength(mapEntrySize);
        n := n + mapEntrySize + 1 + Sov(mapEntrySize);
        keys := keys - {k};
      }
    }

    /** Size does not depend on the order in which the map is visited. */
    method Size() returns (n: nat)
      requires QueryLength(lib, Value()) < TWO_63
      ensures n == QueryLength(lib, Value())
    {
      hide OptChunk, OptScalar, EncodeField, ToUint64, Varint, BitOr, BitLen;
      ChunkBounds(1, serviceName);
      ChunkBounds(2, operationName);
      n := SizeOfOptChunk(1, serviceName);
      var l := SizeOfOptChunk(2, operationName);
      n := n + l;
      l := SizeOfTags();
      n := n + l;
      l := SizeOfChunk(4, Written(lib.writeTime, startTimeMin));
      n := n + l;
      l := SizeOfChunk(5, Written(lib.writeTime, startTimeMax));
      n := n + l;
      l := SizeOfChunk(6, Written(lib.writeDuration, durationMin));
      n := n + l;
      l := SizeOfChunk(7, Written(lib.writeDuration, durationMax));
      n := n + l;
      l := SizeOfOptScalar(8, ToUint64(numTraces));
      n := n + l;
      n := n + |unrecognized|;
    }

    /** The encoder's first half: the library-coded fields, the count and the unrecognized bytes. */
    method MarshalTail(dAtA: array<Byte>, end: nat) returns (r: Result<nat, Error>)
      requires |EncodeQueryTail(lib, Value())| <= end <= dAtA.Length <= MAX_LEN
      modifies dAtA
      ensures match r
              case Err(e) => Refusal(lib, Value().fields) == Some(e) && dAtA[end..] == old(dAtA[end..])
              case Ok(i) => Refusal(lib, Value().fields) == None && i == end - |EncodeQueryTail(lib, Value())|
                            && Filled(dAtA[..], old(dAtA[..]), i, EncodeQueryTail(lib, Value()))
    {
      hide OptScalar, EncodeField, Splice, Filled, ToUint64, Varint, Written;
      ghost var was := dAtA[..];
      ghost var eighth := OptScalar(8, ToUint64(numTraces)) + unrecognized;
      ghost var seventh := EncodeField(7, Delimited, Contents(Written(lib.writeDuration, durationMax))) + eighth;
      ghost var sixth := EncodeField(6, Delimited, Contents(Written(lib.writeDuration, durationMin))) + seventh;
      ghost var fifth := EncodeField(5, Delimited, Contents(Written(lib.writeTime, startTimeMax))) + sixth;
      FieldLength(4, Written(lib.writeTime, startTimeMin));
      FieldLength(5, Written(lib.writeTime, startTimeMax));
      FieldLength(6, Written(lib.writeDuration, durationMin));
      FieldLength(7, Written(lib.writeDuration, durationMax));
      var i := PutUnrecognized(dAtA, end, unrecognized, was);
      i := PutOptScalar(dAtA, i, 8, 0x40, ToUint64(numTraces), was, unrecognized);
      FilledKeepsRest(dAtA, was, i, eighth);
      var duration :- PutLibraryChunk(dAtA, i, 7, 0x3a, lib.writeDuration, durationMax, was, eighth);
      FilledKeepsRest(dAtA, was, duration, seventh);
      duration :- PutLibraryChunk(dAtA, duration, 6, 0x32, lib.writeDuration, durationMin, was, seventh);
      FilledKeepsRest(dAtA, was, duration, sixth);
      var time :- PutLibraryChunk(dAtA, duration, 5, 0x2a, lib.writeTime, startTimeMax, was, sixth);
      FilledKeepsRest(dAtA, was, time, fifth);
      r := PutLibraryChunk(dAtA, time, 4, 0x22, lib.writeTime, startTimeMin, was, fifth);
    }

    /** A value the library refuses ends it, with the library's error; then the bytes from `end` on
        are still as they were. */
    method MarshalToSizedBuffer(dAtA: array<Byte>, end: nat) returns (r: Result<nat, Error>, ghost order: seq<Bytes>)
      requires QueryLength(lib, Value()) <= end <= dAtA.Length <= MAX_LEN
      modifies dAtA
      ensures Enumerates(order, tags) || r.Err?
      ensures match r
              case Err(e) => Refusal(lib, Value().fields) == Some(e) && dAtA[end..] == old(dAtA[end..])
              case Ok(n) =>
                Refusal(lib, Value().fields) == None
                && n == QueryLength(lib, Value()) == |EncodeQuery(lib, Value(), order)|
                && dAtA[..] == Splice(old(dAtA[..]), end - n, EncodeQuery(lib, Value(), order))
    {
      hide OptChunk, EncodeTags, EncodeQueryTail, Splice, Filled;
      ghost var was := dAtA[..];
      order := [];
      QueryTailLength(lib, Value());
      ChunkBounds(1, serviceName);
      ChunkBounds(2, operationName);
      var tail := MarshalTail(dAtA, end);
      if tail.Err? {
        return tail, order;
      }
      var i := tail.value;
      i, order := PutTags(dAtA, i, was, EncodeQueryTail(lib, Value()));
      TagsLengthIs(tags, order);
      ghost var third := EncodeTags(tags, order) + EncodeQueryTail(lib, Value());
      i := PutOptChunk(dAtA, i, 2, 0x12, operationName, was, third);
      i := PutOptChunk(dAtA, i, 1, 0x0a, serviceName, was, OptChunk(2, operationName) + third);
      FilledIsSplice(dAtA[..], was, i, EncodeQuery(lib, Value(), order));
      return Ok(end - i), order;
    }

    method TimeField(dAtA: Bytes, at: nat, wireType: nat) returns (r: Result<(T, nat), Error>)
      requires at <= |dAtA| <= MAX_LEN
      ensures LibraryReports(r, wireType, dAtA[at..], at, lib.readTime)
    {
      hide ReadChunk;
      var f :- StringField(dAtA, at, wireType);
      var t :- lib.readTime(f.0);
      return Ok((t, f.1));
    }

    method DurationField(dAtA: Bytes, at: nat, wireType: nat) returns (r: Result<(D, nat), Error>)
      requires at <= |dAtA| <= MAX_LEN
      ensures LibraryReports(r, wireType, dAtA[at..], at, lib.readDuration)
    {
      hide ReadChunk;
      var f :- StringField(dAtA, at, wireType);
      var d :- lib.readDuration(f.0);
      return Ok((d, f.1));
    }

    /** The map branch: whatever else the entry holds, one key and one value come out of it. */
    method InsertTag(dAtA: Bytes, at: nat, wireType: nat) returns (r: Result<nat, Error>)
      requires at <= |dAtA| <= MAX_LEN
      modifies this`tags
      ensures if wireType != 2 then r == Err(WrongWireType)
              else match ReadEntry(dAtA[at..])
                case Err(e) => Agrees(r, Err(e))
                case Ok((p, n)) => r == Ok(at + n) && tags == old(tags)[p.key := p.val]
      ensures r.Ok? ==> at < r.value <= |dAtA|
    {
      hide ReadChunk, EntryLoop;
      if wireType != 2 {
        return Err(WrongWireType);
      }
      var slice :- ReadSlice(dAtA, at);
      ghost var bs := ReadChunk(dAtA[at..]).value.0;
      assert dAtA[at..][slice.0 - at..] == dAtA[slice.0..];
      var kv :- ReadEntryAt(dAtA, slice.0, slice.1);
      tags := tags[kv.0 := kv.1];
      return Ok(slice.1);
    }

    /** The branches whose fields the library decodes. */
    method UnmarshalLibraryField(dAtA: Bytes, iNdEx: nat, fieldNum: int, wireType: nat, at: nat)
      returns (r: Result<nat, Error>)
      requires iNdEx < |dAtA| <= MAX_LEN && 4 <= fieldNum <= 7
      requires Tagged(dAtA, iNdEx, fieldNum, wireType, at)
      modifies this
      ensures StepReports(r, Step(QueryDesc(lib), old(Value()), dAtA[iNdEx..]), Value(), iNdEx)
      ensures r.Ok? ==> r.value <= |dAtA|
    {
      hide Step, ReadVarint, ReadUnknown, ReadChunk, ReadEntry;
      StepAfterTag(QueryDesc(lib), Value(), dAtA, iNdEx, fieldNum, wireType, at);
      match fieldNum {
        case 4 =>
          var f :- TimeField(dAtA, at, wireType);
          startTimeMin := f.0;
          return Ok(f.1);
        case 5 =>
          var f :- TimeField(dAtA, at, wireType);
          startTimeMax := f.0;
          return Ok(f.1);
        case 6 =>
          var f :- DurationField(dAtA, at, wireType);
          durationMin := f.0;
          return Ok(f.1);
        case _ =>
          var f :- DurationField(dAtA, at, wireType);
          durationMax := f.0;
          return Ok(f.1);
      }
    }

    method UnmarshalField(dAtA: Bytes, iNdEx: nat, fieldNum: int, wireType: nat, at: nat)
      returns (r: Result<nat, Error>)
      requires iNdEx < |dAtA| <= MAX_LEN
      requires Tagged(dAtA, iNdEx, fieldNum, wireType, at)
      modifies this
      ensures StepReports(r, Step(QueryDesc(lib), old(Value()), dAtA[iNdEx..]), Value(), iNdEx)
      ensures r.Ok? ==> r.value <= |dAtA|
    {
      hide Step, ReadVarint, ReadUnknown, ReadChunk, ReadEntry;
      StepAfterTag(QueryDesc(lib), Value(), dAtA, iNdEx, fieldNum, wireType, at);
      match fieldNum {
        case 1 =>
          var f :- StringField(dAtA, at, wireType);
          serviceName := f.0;
          return Ok(f.1);
        case 2 =>
          var f :- StringField(dAtA, at, wireType);
          operationName := f.0;
          return Ok(f.1);
        case 3 =>
          r := InsertTag(dAtA, at, wireType);
        case 8 =>
          var f :- Int32Field(dAtA, at, wireType);
          numTraces := f.0;
          return Ok(f.1);
        case _ =>
          if 4 <= fieldNum <= 7 {
            r := UnmarshalLibraryField(dAtA, iNdEx, fieldNum, wireType, at);
            return;
          }
          var skippy :- SkipUnknown(dAtA, iNdEx);
          unrecognized := unrecognized + dAtA[iNdEx..iNdEx + skippy];
          return Ok(iNdEx + skippy);
      }
    }

    method Unmarshal(dAtA: Bytes) returns (err: Option<Error>)
      requires |dAtA| <= MAX_LEN
      modifies this
      ensures Reports(err, Decode(QueryDesc(lib), old(Value()), dAtA))
      ensures err.None? ==> Decode(QueryDesc(lib), old(Value()), dAtA) == Ok(Value())
    {
      hide Decode, Step, ReadVarint;
      ghost var k, spec := QueryDesc(lib), Decode(QueryDesc(lib), Value(), dAtA);
      var iNdEx := 0;
      assert dAtA[0..] == dAtA;
      while iNdEx < |dAtA|
        invariant iNdEx <= |dAtA|
        invariant spec == Decode(k, Value(), dAtA[iNdEx..])
        decreases |dAtA| - iNdEx
      {
        DecodeUnfolds(k, Value(), dAtA, iNdEx);
        StepWithoutTag(k, Value(), dAtA[iNdEx..]);
        var tag := ReadTag(dAtA, iNdEx);
        if tag.Err? {
          return Some(tag.error);
        }
        var next := UnmarshalField(dAtA, iNdEx, tag.value.0, tag.value.1, tag.value.2);
        if next.Err? {
          return Some(next.error);
        }
        iNdEx := next.value;
      }
      DecodeNothing(k, Value());
      assert dAtA[iNdEx..] == [];
      return None;
    }
  }

  /** A field decoded by the library: a chunk, and what the library makes of it. */
  ghost predicate LibraryReports<V>(
      r: Result<(V, nat), Error>, wireType: nat, d: Bytes, at: nat, read: Bytes -> Result<V, Error>) {
    if wireType != 2 then r == Err(WrongWireType)
    else match ReadChunk(d)
      case Err(e) => r == Err(e) || (r == Err(InvalidLength) && e == UnexpectedEOF)
      case Ok((bs, n)) =>
        match read(bs)
        case Err(e) => r == Err(e)
        case Ok(v) => r == Ok((v, at + n))
  }

  // ---------- How long the entries are together, in no particular order ----------

  function EntryLength(k: Bytes, v: Bytes): nat {
    |EncodeField(3, MapEntry, Entry(k, v))|
  }

  lemma EntryLengthIs(k: Bytes, v: Bytes)
    ensures EntryLength(k, v) == |EncodeField(3, MapEntry, Entry(k, v))|
  {}

  ghost function TagsLength(tags: map<Bytes, Bytes>, keys: set<Bytes>): nat
    requires keys <= tags.Keys
  {
    if keys == {} then 0
    else
      var k :| k in keys;
      EntryLength(k, tags[k]) + TagsLength(tags, keys - {k})
  }

  /** `order` lists each of the keys once. */
  ghost predicate Visited(order: seq<Bytes>, keys: set<Bytes>)
    ensures Visited(order, keys) ==> forall k <- order :: k in keys
  {
    && (forall k :: k in order <==> k in keys)
    && forall i, j | 0 <= i < j < |order| :: order[i] != order[j]
  }

  lemma VisitedNothing()
    ensures Visited([], {})
  {}

  lemma VisitedOneMore(order: seq<Bytes>, keys: set<Bytes>, k: Bytes)
    requires Visited(order, keys) && k !in keys
    ensures Visited([k] + order, keys + {k})
  {}

  lemma EncodeTagsOneMore(tags: map<Bytes, Bytes>, order: seq<Bytes>, k: Bytes)
    requires k in tags && forall x <- order :: x in tags
    ensures EncodeTags(tags, [k] + order) == EncodeField(3, MapEntry, Entry(k, tags[k])) + EncodeTags(tags, order)
  {
    hide EncodeField;
    assert ([k] + order)[1..] == order;
  }

  lemma VisitedAll(order: seq<Bytes>, tags: map<Bytes, Bytes>)
    requires Visited(order, tags.Keys)
    ensures Enumerates(order, tags)
  {}

  lemma {:induction false} TagsLengthWithout(tags: map<Bytes, Bytes>, keys: set<Bytes>, k: Bytes)
    requires k in keys && keys <= tags.Keys
    ensures TagsLength(tags, keys) == EntryLength(k, tags[k]) + TagsLength(tags, keys - {k})
    decreases keys
  {
    hide EntryLength;
    var first :| first in keys
        && TagsLength(tags, keys) == EntryLength(first, tags[first]) + TagsLength(tags, keys - {first});
    if first != k {
      TagsLengthWithout(tags, keys - {first}, k);
      TagsLengthWithout(tags, keys - {k}, first);
      assert keys - {first} - {k} == keys - {k} - {first};
    }
  }

  /** The entries take as many bytes in one order as in another. */
  lemma {:induction false} TagsLengthOf(tags: map<Bytes, Bytes>, order: seq<Bytes>, keys: set<Bytes>)
    requires keys <= tags.Keys
    requires forall k :: k in order <==> k in keys
    requires forall i, j | 0 <= i < j < |order| :: order[i] != order[j]
    ensures |EncodeTags(tags, order)| == TagsLength(tags, keys)
    decreases |order|
  {
    hide EncodeField;
    if order == [] {
      assert keys == {};
    } else {
      var k, rest := order[0], order[1..];
      TagsLengthWithout(tags, keys, k);
      forall x ensures x in rest <==> x in keys - {k} {
        if x in rest {
          var i :| 0 <= i < |rest| && rest[i] == x;
          assert order[i + 1] == x;
        }
      }
      TagsLengthOf(tags, rest, keys - {k});
    }
  }

  lemma TagsLengthIs(tags: map<Bytes, Bytes>, order: seq<Bytes>)
    requires Enumerates(order, tags)
    ensures |EncodeTags(tags, order)| == TagsLength(tags, tags.Keys)
  {
    hide EncodeTags, TagsLength;
    TagsLengthOf(tags, order, tags.Keys);
  }

  /** What Size computes for a query, and hence what every encoding of it takes. */
  ghost function QueryLength<T, D>(lib: Library<T, D>, m: Message<Query<T, D>>): nat {
    |OptChunk(1, m.fields.serviceName)| + |OptChunk(2, m.fields.operationName)|
    + TagsLength(m.fields.tags, m.fields.tags.Keys)
    + |EncodeField(4, Delimited, Contents(Written(lib.writeTime, m.fields.startTimeMin)))|
    + |EncodeField(5, Delimited, Contents(Written(lib.writeTime, m.fields.startTimeMax)))|
    + |EncodeField(6, Delimited, Contents(Written(lib.writeDuration, m.fields.durationMin)))|
    + |EncodeField(7, Delimited, Contents(Written(lib.writeDuration, m.fields.durationMax)))|
    + |OptScalar(8, ToUint64(m.fields.numTraces))| + |m.unrecognized|
  }

  lemma QueryTailLength<T, D>(lib: Library<T, D>, m: Message<Query<T, D>>)
    ensures QueryLength(lib, m)
         == |OptChunk(1, m.fields.serviceName)| + |OptChunk(2, m.fields.operationName)|
            + TagsLength(m.fields.tags, m.fields.tags.Keys) + |EncodeQueryTail(lib, m)|
  {
    hide EncodeField, OptChunk, OptScalar, TagsLength;
  }

  /** Every encoding of a query has the computed size, whatever order its map is written in. */
  lemma EveryOrderHasTheSameLength<T, D>(lib: Library<T, D>, m: Message<Query<T, D>>, order: seq<Bytes>)
    requires Enumerates(order, m.fields.tags)
    ensures |EncodeQuery(lib, m, order)| == QueryLength(lib, m)
  {
    hide EncodeField, OptChunk, OptScalar, TagsLength, EncodeQueryTail, EncodeTags, QueryLength;
    TagsLengthIs(m.fields.tags, order);
    QueryTailLength(lib, m);
  }

  lemma EntrySize(k: Bytes, v: Bytes)
    ensures var size := 1 + |k| + |Varint(|k|)| + 1 + |v| + |Varint(|v|)|;
            EntryLength(k, v) == size + 1 + |Varint(size)|
  {
    hide Varint;
    OneByteTag(3, 2);
  }

  /** A field whose contents the library writes, if it does. */
  method PutLibraryChunk<V>(
      dAtA: array<Byte>, end: nat, num: nat, tag: Byte, write: V -> Result<Bytes, Error>, v: V,
      ghost was: Bytes, ghost done: Bytes)
      returns (r: Result<nat, Error>)
    requires 0 < num < 15 && tag == 8 * num + 2
    requires |EncodeField(num, Delimited, Contents(Written(write, v)))| <= end <= dAtA.Length <= MAX_LEN
    requires Filled(dAtA[..], was, end, done)
    modifies dAtA
    ensures match r
            case Err(e) => write(v) == Err(e) && dAtA[..] == old(dAtA[..])
            case Ok(i) =>
              write(v).Ok? && i == end - |EncodeField(num, Delimited, Contents(Written(write, v)))|
              && Filled(dAtA[..], was, i, EncodeField(num, Delimited, Contents(Written(write, v))) + done)
  {
    hide EncodeField, Filled;
    var bs :- write(v);
    FieldLength(num, bs);
    var i := PutChunk(dAtA, end, num, tag, bs, was, done);
    return Ok(i);
  }

  lemma FilledKeepsRest(dAtA: array<Byte>, was: Bytes, i: nat, done: Bytes)
    requires Filled(dAtA[..], was, i, done)
    ensures dAtA[i + |done|..] == was[i + |done|..]
  {
    assert dAtA[i + |done|..] == dAtA[..][i + |done|..];
  }

  method SizeOfChunk(num: nat, bs: Bytes) returns (n: nat)
    requires num < 15 && |EncodeField(num, Delimited, Contents(bs))| < TWO_63
    ensures n == |EncodeField(num, Delimited, Contents(bs))|
  {
    hide Varint, BitOr, BitLen;
    FieldLength(num, bs);
    n := 1 + |bs| + Sov(|bs|);
    SovIsVarintLength(|bs|);
  }

  // ---------- FindTracesRequest ----------

  class RequestStruct<T, D> {
    const lib: Library<T, D>
    var query: QueryStruct?<T, D>
    var unrecognized: Bytes

    constructor (lib: Library<T, D>)
      ensures Valid() && Value() == Message(Request(None), []) && this.lib == lib && query == null
    {
      this.lib, query, unrecognized := lib, null, [];
    }

    ghost predicate Valid()
      reads this
    {
      query != null ==> query.lib == lib
    }

    function Value(): Message<Request<T, D>>
      reads this, query
    {
      Message(Request(if query == null then None else Some(query.Value())), unrecognized)
    }

    /** The nested query in front of the unrecognized bytes, with its length and tag. */
    method PutQuery(q: QueryStruct<T, D>, dAtA: array<Byte>, end: nat, ghost was: Bytes, ghost done: Bytes)
      returns (r: Result<nat, Error>, ghost order: seq<Bytes>)
      requires
        var size := QueryLength(q.lib, q.Value());
        1 + |Varint(size)| + size <= end <= dAtA.Length <= MAX_LEN
      requires Filled(dAtA[..], was, end, done)
      modifies dAtA
      ensures Enumerates(order, q.tags) || r.Err?
      ensures match r
              case Err(e) => Refusal(q.lib, q.Value().fields) == Some(e) && dAtA[end..] == old(dAtA[end..])
              case Ok(i) =>
                var field := EncodeField(1, Delimited, Contents(EncodeQuery(q.lib, q.Value(), order)));
                Refusal(q.lib, q.Value().fields) == None && i == end - |field|
                && |field| == 1 + |Varint(QueryLength(q.lib, q.Value()))| + QueryLength(q.lib, q.Value())
                && Filled(dAtA[..], was, i, field + done)
    {
      hide EncodeQuery, EncodeField, QueryLength, Splice, Filled, Varint, Refusal;
      ghost var before := dAtA[..];
      var size;
      size, order := q.MarshalToSizedBuffer(dAtA, end);
      if size.Err? {
        return size, order;
      }
      ghost var bs := EncodeQuery(q.lib, q.Value(), order);
      var i := end - size.value;
      FilledBySplice(before, i, bs);
      FilledOneMore(before, was, end, done, dAtA[..], bs);
      FieldLength(1, bs);
      i := PutLength(dAtA, i, 1, 0x0a, size.value, bs, was, done);
      return Ok(i), order;
    }

    /** The nested query's error is passed on. */
    method MarshalToSizedBuffer(dAtA: array<Byte>, end: nat) returns (r: Result<nat, Error>, ghost order: seq<Bytes>)
      requires Valid() && RequestLength(lib, Value()) <= end <= dAtA.Length <= MAX_LEN
      modifies dAtA
      ensures query != null ==> Enumerates(order, query.tags) || r.Err?
      ensures match r
              case Err(e) => RequestRefusal(lib, Value().fields) == Some(e) && dAtA[end..] == old(dAtA[end..])
              case Ok(n) =>
                RequestRefusal(lib, Value().fields) == None
                && n == RequestLength(lib, Value()) == |EncodeRequest(lib, Value(), order)|
                && dAtA[..] == Splice(old(dAtA[..]), end - n, EncodeRequest(lib, Value(), order))
    {
      hide EncodeQuery, EncodeField, QueryLength, Splice, Filled, Varint, Refusal;
      ghost var was := dAtA[..];
      order := [];
      var i := PutUnrecognized(dAtA, end, unrecognized, was);
      if query != null {
        ghost var before := dAtA[..];
        FilledKeepsRest(dAtA, was, i, unrecognized);
        var nested;
        nested, order := PutQuery(query, dAtA, i, was, unrecognized);
        if nested.Err? {
          assert dAtA[end..] == dAtA[i..][end - i..] == before[i..][end - i..];
          return nested, order;
        }
        i := nested.value;
      } else {
        assert [] + unrecognized == unrecognized;
      }
      FilledIsSplice(dAtA[..], was, i, EncodeRequest(lib, Value(), order));
      return Ok(end - i), order;
    }

    /** A nested query that is already there decodes the chunk on top of what it holds. */
    method MergeNested(dAtA: Bytes, at: nat, wireType: nat) returns (r: Result<nat, Error>)
      requires Valid() && at <= |dAtA| <= MAX_LEN
      modifies this`query, query
      ensures Valid()
      ensures NestedReports(
                r, wireType, dAtA[at..], at,
                bs => Decode(QueryDesc(lib), old(Value().fields.query.GetOr(NoQuery(lib))), bs))
      ensures r.Ok? ==> at < r.value <= |dAtA|
      ensures query == old(query) || fresh(query)
      ensures r.Ok? ==> query != null
      ensures r.Ok? ==>
                var before := old(Value().fields.query.GetOr(NoQuery(lib)));
                Ok(query.Value()) == Decode(QueryDesc(lib), before, ReadChunk(dAtA[at..]).value.0)
    {
      hide ReadChunk, Decode;
      var f :- StringField(dAtA, at, wireType);
      if query == null {
        query := new QueryStruct(lib);
      }
      var err := query.Unmarshal(f.0);
      if err.Some? {
        return Err(err.value);
      }
      return Ok(f.1);
    }

    method UnmarshalField(dAtA: Bytes, iNdEx: nat, fieldNum: int, wireType: nat, at: nat)
      returns (r: Result<nat, Error>)
      requires Valid() && iNdEx < |dAtA| <= MAX_LEN
      requires Tagged(dAtA, iNdEx, fieldNum, wireType, at)
      modifies this, query
      ensures Valid() && (query == old(query) || fresh(query))
      ensures StepReports(r, Step(RequestDesc(lib), old(Value()), dAtA[iNdEx..]), Value(), iNdEx)
      ensures r.Ok? ==> r.value <= |dAtA|
    {
      hide Step, ReadVarint, ReadUnknown, ReadChunk, Decode;
      StepAfterTag(RequestDesc(lib), Value(), dAtA, iNdEx, fieldNum, wireType, at);
      match fieldNum {
        case 1 =>
          r := MergeNested(dAtA, at, wireType);
        case _ =>
          var skippy :- SkipUnknown(dAtA, iNdEx);
          unrecognized := unrecognized + dAtA[iNdEx..iNdEx + skippy];
          return Ok(iNdEx + skippy);
      }
    }

    method Unmarshal(dAtA: Bytes) returns (err: Option<Error>)
      requires Valid() && |dAtA| <= MAX_LEN
      modifies this, query
      ensures Valid()
      ensures Reports(err, Decode(RequestDesc(lib), old(Value()), dAtA))
      ensures err.None? ==> Decode(RequestDesc(lib), old(Value()), dAtA) == Ok(Value())
    {
      hide Decode, Step, ReadVarint;
      ghost var k, spec := RequestDesc(lib), Decode(RequestDesc(lib), Value(), dAtA);
      var iNdEx := 0;
      assert dAtA[0..] == dAtA;
      while iNdEx < |dAtA|
        invariant iNdEx <= |dAtA| && Valid()
        invariant query == old(query) || fresh(query)
        invariant spec == Decode(k, Value(), dAtA[iNdEx..])
        decreases |dAtA| - iNdEx
      {
        DecodeUnfolds(k, Value(), dAtA, iNdEx);
        StepWithoutTag(k, Value(), dAtA[iNdEx..]);
        var tag := ReadTag(dAtA, iNdEx);
        if tag.Err? {
          return Some(tag.error);
        }
        var next := UnmarshalField(dAtA, iNdEx, tag.value.0, tag.value.1, tag.value.2);
        if next.Err? {
          return Some(next.error);
        }
        iNdEx := next.value;
      }
      DecodeNothing(k, Value());
      assert dAtA[iNdEx..] == [];
      return None;
    }
  }

  function RequestRefusal<T, D>(lib: Library<T, D>, f: Request<T, D>): Option<Error> {
    match f.query
    case None => None
    case Some(q) => Refusal(lib, q.fields)
  }

  ghost function RequestLength<T, D>(lib: Library<T, D>, m: Message<Request<T, D>>): nat {
    match m.fields.query
    case None => |m.unrecognized|
    case Some(q) => 1 + |Varint(QueryLength(lib, q))| + QueryLength(lib, q) + |m.unrecognized|
  }
}
