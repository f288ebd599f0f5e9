/**
 The messages' field numbers and wire types, as the tag bytes by which other programs know them.
 */
module Schema {
  import opened Results
  import opened Wire
  import opened Decoding
  import opened Encoding
  import opened QueryMessages
  import opened StorageMessages
  import opened Tail

  function Field(tag: Byte, bs: Bytes): Bytes {
    [tag] + (Varint(|bs|) + bs)
  }

  function Text(tag: Byte, bs: Bytes): Bytes {
    if |bs| > 0 then Field(tag, bs) else []
  }

  function Number(tag: Byte, v: int): Bytes {
    if v != 0 then [tag] + Varint(v % TWO_64) else []
  }

  function Time(tag: Byte, v: Uint64): Bytes {
    if v != 0 then [tag] + Little(v, 8) else []
  }

  function Each<M>(tag: Byte, encode: M -> Bytes, ms: seq<M>): Bytes {
    if |ms| == 0 then [] else Field(tag, encode(ms[0])) + Each(tag, encode, ms[1..])
  }

  lemma {:induction false} RepeatedIsEach<M>(num: nat, tag: Byte, encode: M -> Bytes, ms: seq<M>)
    requires tag == 8 * num + 2 < 128
    ensures Repeated(num, encode, ms) == Each(tag, encode, ms)
  {
    hide Varint;
    OneByteTag(num, 2);
    if ms != [] {
      RepeatedIsEach(num, tag, encode, ms[1..]);
    }
  }

  lemma FieldsAre(num: nat, tag: Byte, bs: Bytes, v: Uint64)
    requires num < 15
    ensures tag == 8 * num + 2 ==> OptChunk(num, bs) == Text(tag, bs)
    ensures tag == 8 * num + 2 ==> EncodeField(num, Delimited, Contents(bs)) == Field(tag, bs)
    ensures tag == 8 * num ==> OptScalar(num, v) == Number(tag, v)
    ensures tag == 8 * num + 1 ==> OptFixed(num, v) == Time(tag, v)
  {
    hide Varint;
    OneByteTag(num, 2);
    OneByteTag(num, 0);
    OneByteTag(num, 1);
  }

  lemma Int32Is(num: nat, tag: Byte, x: Int32)
    requires num < 15 && tag == 8 * num
    ensures OptScalar(num, ToUint64(x)) == Number(tag, x)
  {
    hide Varint;
    OneByteTag(num, 0);
  }

  lemma PaginationOnTheWire(m: Message<Pagination>)
    ensures EncodePagination(m) == Number(0x08, m.fields.pageSize) + (Text(0x12, m.fields.pageToken) + m.unrecognized)
  {
    hide OptScalar, OptChunk, Number, Text;
    FieldsAre(1, 0x08, [], m.fields.pageSize);
    FieldsAre(2, 0x12, m.fields.pageToken, 0);
  }

  lemma ServiceOnTheWire(m: Message<ServiceSummary>)
    ensures
      EncodeService(m) ==
        Text(0x0a, m.fields.name) + (
          Number(0x10, m.fields.spanCount) + (Number(0x18, m.fields.errorSpanCount) + m.unrecognized))
  {
    hide OptScalar, OptChunk, Number, Text, ToUint64;
    FieldsAre(1, 0x0a, m.fields.name, 0);
    Int32Is(2, 0x10, m.fields.spanCount);
    Int32Is(3, 0x18, m.fields.errorSpanCount);
  }

  lemma TraceOnTheWire(m: Message<TraceSummary>)
    ensures
      var f := m.fields;
      EncodeTrace(m) ==
        Text(0x0a, f.traceId) + (Text(0x12, f.rootServiceName) + (Text(0x1a, f.rootOperationName) + (
          Time(0x21, f.minStartTimeUnixNano) + (Time(0x29, f.maxEndTimeUnixNano) + (
            Number(0x30, f.spanCount) + (Number(0x38, f.errorSpanCount) + (Number(0x40, f.orphanSpanCount) + (
              Each(0x4a, EncodeService, f.services) + m.unrecognized))))))))
  {
    hide OptScalar, OptChunk, OptFixed, Repeated, Number, Text, Time, Each, ToUint64;
    FieldsAre(1, 0x0a, m.fields.traceId, 0);
    FieldsAre(2, 0x12, m.fields.rootServiceName, 0);
    FieldsAre(3, 0x1a, m.fields.rootOperationName, 0);
    FieldsAre(4, 0x21, [], m.fields.minStartTimeUnixNano);
    FieldsAre(5, 0x29, [], m.fields.maxEndTimeUnixNano);
    Int32Is(6, 0x30, m.fields.spanCount);
    Int32Is(7, 0x38, m.fields.errorSpanCount);
    Int32Is(8, 0x40, m.fields.orphanSpanCount);
    RepeatedIsEach(9, 0x4a, EncodeService, m.fields.services);
  }

  lemma ResponseOnTheWire(m: Message<SummariesResponse>)
    ensures
      EncodeResponse(m) ==
        Each(0x0a, EncodeTrace, m.fields.summaries) + (Text(0x12, m.fields.nextPageToken) + m.unrecognized)
  {
    hide OptChunk, Repeated, Text, Each;
    RepeatedIsEach(1, 0x0a, EncodeTrace, m.fields.summaries);
    FieldsAre(2, 0x12, m.fields.nextPageToken, 0);
  }

  lemma OperationsOnTheWire(m: Message<Operations>)
    ensures
      var operation := (o: Message<Operation>) =>
          Text(0x0a, o.fields.name) + (Text(0x12, o.fields.spanKind) + o.unrecognized);
      EncodeOperations(m) ==
        Each(0x0a, (name: Bytes) => name, m.fields.operationNames) + (
          Each(0x12, operation, m.fields.operations) + m.unrecognized)
  {
    hide Repeated, Each, OptChunk, Text;
    var operation := (o: Message<Operation>) =>
        Text(0x0a, o.fields.name) + (Text(0x12, o.fields.spanKind) + o.unrecognized);
    RepeatedIsEach(1, 0x0a, Verbatim, m.fields.operationNames);
    EachSame(0x0a, Verbatim, (name: Bytes) => name, m.fields.operationNames);
    RepeatedIsEach(2, 0x12, EncodeOperation, m.fields.operations);
    forall o: Message<Operation> ensures EncodeOperation(o) == operation(o) {
      FieldsAre(1, 0x0a, o.fields.name, 0);
      FieldsAre(2, 0x12, o.fields.spanKind, 0);
    }
    EachSame(0x12, EncodeOperation, operation, m.fields.operations);
  }

  lemma {:induction false} EachSame<M(!new)>(tag: Byte, f: M -> Bytes, g: M -> Bytes, ms: seq<M>)
    requires forall x :: f(x) == g(x)
    ensures Each(tag, f, ms) == Each(tag, g, ms)
  {
    if ms != [] {
      EachSame(tag, f, g, ms[1..]);
    }
  }

  /** A map entry is a field of its own, the key in front of the value. */
  lemma TagsOnTheWire(tags: map<Bytes, Bytes>, order: seq<Bytes>)
    requires forall k <- order :: k in tags
    ensures order == [] ==> EncodeTags(tags, order) == []
    ensures
      order != [] ==>
        EncodeTags(tags, order) ==
          Field(0x1a, Field(0x0a, order[0]) + Field(0x12, tags[order[0]])) + EncodeTags(tags, order[1..])
  {
    hide Varint;
    OneByteTag(3, 2);
  }

  lemma QueryOnTheWire<T, D>(lib: Library<T, D>, m: Message<Query<T, D>>, order: seq<Bytes>)
    requires forall k <- order :: k in m.fields.tags
    ensures
      var f := m.fields;
      EncodeQuery(lib, m, order) ==
        Text(0x0a, f.serviceName) + (Text(0x12, f.operationName) + (EncodeTags(f.tags, order) + (
          Field(0x22, Written(lib.writeTime, f.startTimeMin)) + (
            Field(0x2a, Written(lib.writeTime, f.startTimeMax)) + (
              Field(0x32, Written(lib.writeDuration, f.durationMin)) + (
                Field(0x3a, Written(lib.writeDuration, f.durationMax)) + (
                  Number(0x40, f.numTraces) + m.unrecognized)))))))
  {
    hide OptScalar, OptChunk, EncodeTags, EncodeField, Number, Text, Field, ToUint64, Written;
    FieldsAre(1, 0x0a, m.fields.serviceName, 0);
    FieldsAre(2, 0x12, m.fields.operationName, 0);
    FieldsAre(4, 0x22, Written(lib.writeTime, m.fields.startTimeMin), 0);
    FieldsAre(5, 0x2a, Written(lib.writeTime, m.fields.startTimeMax), 0);
    FieldsAre(6, 0x32, Written(lib.writeDuration, m.fields.durationMin), 0);
    FieldsAre(7, 0x3a, Written(lib.writeDuration, m.fields.durationMax), 0);
    Int32Is(8, 0x40, m.fields.numTraces);
  }

  lemma RequestOnTheWire<T, D>(lib: Library<T, D>, m: Message<Request<T, D>>, order: seq<Bytes>)
    requires m.fields.query.Some? ==> forall k <- order :: k in m.fields.query.value.fields.tags
    ensures
      EncodeRequest(lib, m, order) ==
        (if m.fields.query.Some? then Field(0x0a, EncodeQuery(lib, m.fields.query.value, order)) else [])
        + m.unrecognized
  {
    hide EncodeField, Field, EncodeQuery;
    if m.fields.query.Some? {
      FieldsAre(1, 0x0a, EncodeQuery(lib, m.fields.query.value, order), 0);
    }
  }

  // ---------- Which fields are known ----------

  /** The field numbers a message knows, with their wire types: any other is kept unread. */
  ghost predicate Knows<F>(k: Desc<F>, first: int, last: int, wireTypes: seq<nat>)
    requires first <= last + 1 && |wireTypes| == last + 1 - first
  {
    forall num ::
      if first <= num <= last then k.kind(num) != Unknown && WireType(k.kind(num)) == wireTypes[num - first]
      else k.kind(num) == Unknown
  }

  lemma KnownFields<T, D>(lib: Library<T, D>)
    ensures Knows(PaginationDesc(), 1, 2, [0, 2]) && Knows(ServiceDesc(), 1, 3, [2, 0, 0])
    ensures Knows(TraceDesc(), 1, 9, [2, 2, 2, 1, 1, 0, 0, 0, 2]) && Knows(ResponseDesc(), 1, 2, [2, 2])
    ensures Knows(OperationDesc(), 1, 2, [2, 2]) && Knows(OperationsDesc(), 1, 2, [2, 2])
    ensures Knows(QueryDesc(lib), 1, 8, [2, 2, 2, 2, 2, 2, 2, 0]) && Knows(RequestDesc(lib), 1, 1, [2])
  {}

  // ---------- What decoding refuses ----------

  /** The refusals of the loop itself, for every message: the end of a group, a field number that is
      not positive, and a known field with the wrong wire type. */
  lemma StepRefuses<F>(k: Desc<F>, m: Message<F>, num: nat, wireType: nat, rest: Bytes)
    requires wireType < 8 && num < TWO_31
    ensures
      var step := Step(k, m, Varint(8 * num + wireType) + rest);
      if wireType == 4 then step == Err(EndGroupForNonGroup)
      else if num == 0 then step == Err(IllegalTag)
      else k.kind(num) != Unknown && wireType != WireType(k.kind(num)) ==> step == Err(WrongWireType)
  {
    hide ReadVarint, Varint, ReadPayload, ReadUnknown, ToInt32, ToUint64;
    VarintRoundTrip(8 * num + wireType, rest);
    NumberOf(num, wireType);
  }

  lemma NumberOf(num: nat, wireType: nat)
    requires wireType < 8 && num < TWO_31
    ensures ToInt32(ToUint64(8 * num + wireType) / 8) == num && (8 * num + wireType) % 8 == wireType
  {
    assert 8 * num + wireType < TWO_64;
  }
}
