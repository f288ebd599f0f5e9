/**
 The messages of the api_v3 query service that a trace-summary search exchanges: what each
 field number stores, what the encoder writes, and what decoding an encoding amounts to.
 */
module QueryMessages {
  import opened Results
  import opened Wire
  import opened Records
  import opened Decoding
  import opened Encoding

  // ---------- Pagination ----------

  datatype Pagination = Pagination(pageSize: Uint32, pageToken: Bytes)

  const NO_PAGINATION := Message(Pagination(0, []), [])

  function PaginationKind(num: int): Kind {
    if num == 1 then Scalar else if num == 2 then Delimited else Unknown
  }

  function StorePagination(f: Pagination, num: int, p: Payload): Result<Pagination, Error> {
    match (num, p)
    case (1, Number(v)) => Ok(f.(pageSize := ToUint32(v)))
    case (2, Contents(bs)) => Ok(f.(pageToken := bs))
    case _ => Err(WrongWireType)
  }

  function PaginationDesc(): Desc<Pagination> {
    Desc(PaginationKind, StorePagination)
  }

  function EncodePagination(m: Message<Pagination>): Bytes {
    OptScalar(1, m.fields.pageSize) + (OptChunk(2, m.fields.pageToken) + m.unrecognized)
  }

  // ---------- ServiceSummary ----------

  datatype ServiceSummary = ServiceSummary(name: Bytes, spanCount: Int32, errorSpanCount: Int32)

  const NO_SERVICE := Message(ServiceSummary([], 0, 0), [])

  function ServiceKind(num: int): Kind {
    if num == 1 then Delimited else if num == 2 || num == 3 then Scalar else Unknown
  }

  function StoreService(f: ServiceSummary, num: int, p: Payload): Result<ServiceSummary, Error> {
    match (num, p)
    case (1, Contents(bs)) => Ok(f.(name := bs))
    case (2, Number(v)) => Ok(f.(spanCount := ToInt32(v)))
    case (3, Number(v)) => Ok(f.(errorSpanCount := ToInt32(v)))
    case _ => Err(WrongWireType)
  }

  function ServiceDesc(): Desc<ServiceSummary> {
    Desc(ServiceKind, StoreService)
  }

  function EncodeService(m: Message<ServiceSummary>): Bytes {
    OptChunk(1, m.fields.name) + (
      OptScalar(2, ToUint64(m.fields.spanCount)) + (
        OptScalar(3, ToUint64(m.fields.errorSpanCount)) + m.unrecognized))
  }

  // ---------- TraceSummary ----------

  datatype TraceSummary = TraceSummary(
    traceId: Bytes,
    rootServiceName: Bytes,
    rootOperationName: Bytes,
    minStartTimeUnixNano: Uint64,
    maxEndTimeUnixNano: Uint64,
    spanCount: Int32,
    errorSpanCount: Int32,
    orphanSpanCount: Int32,
    services: seq<Message<ServiceSummary>>)

  const NO_TRACE := Message(TraceSummary([], [], [], 0, 0, 0, 0, 0, []), [])

  function TraceKind(num: int): Kind {
    if 1 <= num <= 3 || num == 9 then Delimited
    else if num == 4 || num == 5 then Fixed
    else if 6 <= num <= 8 then Scalar
    else Unknown
  }

  function StoreTrace(f: TraceSummary, num: int, p: Payload): Result<TraceSummary, Error> {
    match (num, p)
    case (1, Contents(bs)) => Ok(f.(traceId := bs))
    case (2, Contents(bs)) => Ok(f.(rootServiceName := bs))
    case (3, Contents(bs)) => Ok(f.(rootOperationName := bs))
    case (4, Number(v)) => Ok(f.(minStartTimeUnixNano := ToUint64(v)))
    case (5, Number(v)) => Ok(f.(maxEndTimeUnixNano := ToUint64(v)))
    case (6, Number(v)) => Ok(f.(spanCount := ToInt32(v)))
    case (7, Number(v)) => Ok(f.(errorSpanCount := ToInt32(v)))
    case (8, Number(v)) => Ok(f.(orphanSpanCount := ToInt32(v)))
    case (9, Contents(bs)) =>
      var s :- Decode(ServiceDesc(), NO_SERVICE, bs);
      Ok(f.(services := f.services + [s]))
    case _ => Err(WrongWireType)
  }

  function TraceDesc(): Desc<TraceSummary> {
    Desc(TraceKind, StoreTrace)
  }

  function EncodeTrace(m: Message<TraceSummary>): Bytes {
    OptChunk(1, m.fields.traceId) + (
      OptChunk(2, m.fields.rootServiceName) + (
        OptChunk(3, m.fields.rootOperationName) + (
          OptFixed(4, m.fields.minStartTimeUnixNano) + (
            OptFixed(5, m.fields.maxEndTimeUnixNano) + EncodeTraceTail(m)))))
  }

  function EncodeTraceTail(m: Message<TraceSummary>): Bytes {
    OptScalar(6, ToUint64(m.fields.spanCount)) + (
      OptScalar(7, ToUint64(m.fields.errorSpanCount)) + (
        OptScalar(8, ToUint64(m.fields.orphanSpanCount)) + (
          Repeated(9, EncodeService, m.fields.services) + m.unrecognized)))
  }

  // ---------- FindTraceSummariesResponse ----------

  datatype SummariesResponse = SummariesResponse(summaries: seq<Message<TraceSummary>>, nextPageToken: Bytes)

  const NO_RESPONSE := Message(SummariesResponse([], []), [])

  function ResponseKind(num: int): Kind {
    if num == 1 || num == 2 then Delimited else Unknown
  }

  function StoreResponse(f: SummariesResponse, num: int, p: Payload): Result<SummariesResponse, Error> {
    match (num, p)
    case (1, Contents(bs)) =>
      var s :- Decode(TraceDesc(), NO_TRACE, bs);
      Ok(f.(summaries := f.summaries + [s]))
    case (2, Contents(bs)) => Ok(f.(nextPageToken := bs))
    case _ => Err(WrongWireType)
  }

  function ResponseDesc(): Desc<SummariesResponse> {
    Desc(ResponseKind, StoreResponse)
  }

  function EncodeResponse(m: Message<SummariesResponse>): Bytes {
    Repeated(1, EncodeTrace, m.fields.summaries) + (OptChunk(2, m.fields.nextPageToken) + m.unrecognized)
  }

  // ---------- Merging, the reference meaning of decoding onto a message ----------

  function Override<T(==)>(zero: T, old_: T, new_: T): T {
    if new_ == zero then old_ else new_
  }

  function MergePagination(a: Message<Pagination>, b: Message<Pagination>): Message<Pagination> {
    Message(
      Pagination(
        Override(0, a.fields.pageSize, b.fields.pageSize), Override([], a.fields.pageToken, b.fields.pageToken)),
      a.unrecognized + b.unrecognized)
  }

  function MergeService(a: Message<ServiceSummary>, b: Message<ServiceSummary>): Message<ServiceSummary> {
    Message(
      ServiceSummary(
        Override([], a.fields.name, b.fields.name),
        Override(0, a.fields.spanCount, b.fields.spanCount),
        Override(0, a.fields.errorSpanCount, b.fields.errorSpanCount)),
      a.unrecognized + b.unrecognized)
  }

  function MergeTrace(a: Message<TraceSummary>, b: Message<TraceSummary>): Message<TraceSummary> {
    Message(
      TraceSummary(
        Override([], a.fields.traceId, b.fields.traceId),
        Override([], a.fields.rootServiceName, b.fields.rootServiceName),
        Override([], a.fields.rootOperationName, b.fields.rootOperationName),
        Override(0, a.fields.minStartTimeUnixNano, b.fields.minStartTimeUnixNano),
        Override(0, a.fields.maxEndTimeUnixNano, b.fields.maxEndTimeUnixNano),
        Override(0, a.fields.spanCount, b.fields.spanCount),
        Override(0, a.fields.errorSpanCount, b.fields.errorSpanCount),
        Override(0, a.fields.orphanSpanCount, b.fields.orphanSpanCount),
        a.fields.services + b.fields.services),
      a.unrecognized + b.unrecognized)
  }

  function MergeResponse(a: Message<SummariesResponse>, b: Message<SummariesResponse>): Message<SummariesResponse> {
    Message(
      SummariesResponse(
        a.fields.summaries + b.fields.summaries,
        Override([], a.fields.nextPageToken, b.fields.nextPageToken)),
      a.unrecognized + b.unrecognized)
  }

  // ---------- Messages whose unrecognized bytes are what decoding could have kept ----------

  predicate PaginationOk(m: Message<Pagination>) {
    Foreign(PaginationDesc(), m.unrecognized)
  }

  predicate ServiceOk(m: Message<ServiceSummary>) {
    Foreign(ServiceDesc(), m.unrecognized)
  }

  predicate TraceFieldsOk(f: TraceSummary) {
    forall s <- f.services :: ServiceOk(s)
  }

  predicate TraceOk(m: Message<TraceSummary>) {
    Foreign(TraceDesc(), m.unrecognized) && TraceFieldsOk(m.fields)
  }

  predicate ResponseFieldsOk(f: SummariesResponse) {
    forall t <- f.summaries :: TraceOk(t)
  }

  predicate ResponseOk(m: Message<SummariesResponse>) {
    Foreign(ResponseDesc(), m.unrecognized) && ResponseFieldsOk(m.fields)
  }

  // ---------- Decoding an encoding is merging ----------

  lemma DecodesPagination(a: Message<Pagination>, b: Message<Pagination>)
    requires PaginationOk(b) && |EncodePagination(b)| < TWO_63
    ensures Decode(PaginationDesc(), a, EncodePagination(b)) == Ok(MergePagination(a, b))
  {
    hide Decode, OptChunk, OptScalar, Foreign;
    var k := PaginationDesc();
    var f1 := a.fields.(pageSize := Override(0, a.fields.pageSize, b.fields.pageSize));
    var f2 := f1.(pageToken := Override([], a.fields.pageToken, b.fields.pageToken));
    DecodesOptNumber(k, a, 1, b.fields.pageSize, OptChunk(2, b.fields.pageToken) + b.unrecognized, f1);
    ChunkBounds(2, b.fields.pageToken);
    DecodesOptChunk(k, a.(fields := f1), 2, b.fields.pageToken, b.unrecognized, f2);
    DecodesForeign(k, a.(fields := f2), b.unrecognized);
  }

  lemma ChunkBounds(num: nat, bs: Bytes)
    ensures |bs| <= |OptChunk(num, bs)|
  {}

  /** An int32 field, negative ones included. */
  lemma DecodesOptInt32<F>(k: Desc<F>, m: Message<F>, num: nat, v: Int32, rest: Bytes, f: F)
    requires LegalNumber(num) && k.kind(num) == Scalar
    requires if v == 0 then f == m.fields else k.store(m.fields, num, Number(ToUint64(v))) == Ok(f)
    ensures Decode(k, m, OptScalar(num, ToUint64(v)) + rest) == Decode(k, m.(fields := f), rest)
  {
    hide Decode, OptScalar;
    Int32Survives(v);
    DecodesOptNumber(k, m, num, ToUint64(v), rest, f);
  }

  lemma DecodesService(a: Message<ServiceSummary>, b: Message<ServiceSummary>)
    requires ServiceOk(b) && |EncodeService(b)| < TWO_63
    ensures Decode(ServiceDesc(), a, EncodeService(b)) == Ok(MergeService(a, b))
  {
    hide Decode, OptChunk, OptScalar, Foreign, ToUint64, ToInt32;
    var k := ServiceDesc();
    Int32Survives(b.fields.spanCount);
    Int32Survives(b.fields.errorSpanCount);
    var f1 := a.fields.(name := Override([], a.fields.name, b.fields.name));
    var f2 := f1.(spanCount := Override(0, a.fields.spanCount, b.fields.spanCount));
    var f3 := f2.(errorSpanCount := Override(0, a.fields.errorSpanCount, b.fields.errorSpanCount));
    var third := OptScalar(3, ToUint64(b.fields.errorSpanCount)) + b.unrecognized;
    var second := OptScalar(2, ToUint64(b.fields.spanCount)) + third;
    ChunkBounds(1, b.fields.name);
    DecodesOptChunk(k, a, 1, b.fields.name, second, f1);
    DecodesOptInt32(k, a.(fields := f1), 2, b.fields.spanCount, third, f2);
    DecodesOptInt32(k, a.(fields := f2), 3, b.fields.errorSpanCount, b.unrecognized, f3);
    DecodesForeign(k, a.(fields := f3), b.unrecognized);
  }

  lemma ServiceRoundTrip(m: Message<ServiceSummary>)
    requires ServiceOk(m) && |EncodeService(m)| < TWO_63
    ensures Decode(ServiceDesc(), NO_SERVICE, EncodeService(m)) == Ok(m)
  {
    hide Decode, EncodeService, Foreign;
    DecodesService(NO_SERVICE, m);
    assert [] + m.unrecognized == m.unrecognized;
  }

  lemma {:induction false} StoresServices(f: TraceSummary, ss: seq<Message<ServiceSummary>>)
    requires forall s <- ss :: ServiceOk(s)
    requires |Repeated(9, EncodeService, ss)| < TWO_63
    ensures StoresAll(TraceDesc(), 9, EncodeService, f, ss, f.(services := f.services + ss))
    decreases |ss|
  {
    hide Decode, EncodeService, Foreign, EncodeField;
    if ss == [] {
      assert f.services + ss == f.services;
    } else {
      RepeatedBounds(9, EncodeService, ss, 0);
      ServiceRoundTrip(ss[0]);
      StoresServices(f.(services := f.services + [ss[0]]), ss[1..]);
      assert f.services + [ss[0]] + ss[1..] == f.services + ss;
    }
  }

  lemma DecodesTraceTail(a: Message<TraceSummary>, b: Message<TraceSummary>, f: TraceSummary)
    requires TraceOk(b) && |EncodeTraceTail(b)| < TWO_63
    requires f == MergeTrace(a, b).fields
    requires a.fields.traceId == f.traceId && a.fields.rootServiceName == f.rootServiceName
    requires a.fields.rootOperationName == f.rootOperationName
    requires a.fields.minStartTimeUnixNano == f.minStartTimeUnixNano
    requires a.fields.maxEndTimeUnixNano == f.maxEndTimeUnixNano
    ensures Decode(TraceDesc(), a, EncodeTraceTail(b)) == Ok(MergeTrace(a, b))
  {
    hide Decode, OptChunk, OptScalar, Foreign, ToUint64, ToInt32, Repeated, StoresAll, EncodeService;
    var k := TraceDesc();
    Int32Survives(b.fields.spanCount);
    Int32Survives(b.fields.errorSpanCount);
    Int32Survives(b.fields.orphanSpanCount);
    var f6 := a.fields.(spanCount := f.spanCount);
    var f7 := f6.(errorSpanCount := f.errorSpanCount);
    var f8 := f7.(orphanSpanCount := f.orphanSpanCount);
    var ninth := Repeated(9, EncodeService, b.fields.services) + b.unrecognized;
    var eighth := OptScalar(8, ToUint64(b.fields.orphanSpanCount)) + ninth;
    var seventh := OptScalar(7, ToUint64(b.fields.errorSpanCount)) + eighth;
    DecodesOptInt32(k, a, 6, b.fields.spanCount, seventh, f6);
    DecodesOptInt32(k, a.(fields := f6), 7, b.fields.errorSpanCount, eighth, f7);
    DecodesOptInt32(k, a.(fields := f7), 8, b.fields.orphanSpanCount, ninth, f8);
    StoresServices(f8, b.fields.services);
    DecodesRepeated(k, a.(fields := f8), 9, EncodeService, b.fields.services, b.unrecognized, f);
    DecodesForeign(k, a.(fields := f), b.unrecognized);
  }

  lemma DecodesTrace(a: Message<TraceSummary>, b: Message<TraceSummary>)
    requires TraceOk(b) && |EncodeTrace(b)| < TWO_63
    ensures Decode(TraceDesc(), a, EncodeTrace(b)) == Ok(MergeTrace(a, b))
  {
    hide Decode, OptChunk, OptFixed, Foreign, EncodeTraceTail, ServiceOk;
    var k, f := TraceDesc(), MergeTrace(a, b).fields;
    var f1 := a.fields.(traceId := f.traceId);
    var f2 := f1.(rootServiceName := f.rootServiceName);
    var f3 := f2.(rootOperationName := f.rootOperationName);
    var f4 := f3.(minStartTimeUnixNano := f.minStartTimeUnixNano);
    var f5 := f4.(maxEndTimeUnixNano := f.maxEndTimeUnixNano);
    var tail := EncodeTraceTail(b);
    var fifth := OptFixed(5, b.fields.maxEndTimeUnixNano) + tail;
    var fourth := OptFixed(4, b.fields.minStartTimeUnixNano) + fifth;
    var third := OptChunk(3, b.fields.rootOperationName) + fourth;
    var second := OptChunk(2, b.fields.rootServiceName) + third;
    ChunkBounds(1, b.fields.traceId);
    ChunkBounds(2, b.fields.rootServiceName);
    ChunkBounds(3, b.fields.rootOperationName);
    DecodesOptChunk(k, a, 1, b.fields.traceId, second, f1);
    DecodesOptChunk(k, a.(fields := f1), 2, b.fields.rootServiceName, third, f2);
    DecodesOptChunk(k, a.(fields := f2), 3, b.fields.rootOperationName, fourth, f3);
    DecodesOptNumber(k, a.(fields := f3), 4, b.fields.minStartTimeUnixNano, fifth, f4);
    DecodesOptNumber(k, a.(fields := f4), 5, b.fields.maxEndTimeUnixNano, tail, f5);
    DecodesTraceTail(a.(fields := f5), b, f);
  }

  lemma TraceRoundTrip(m: Message<TraceSummary>)
    requires TraceOk(m) && |EncodeTrace(m)| < TWO_63
    ensures Decode(TraceDesc(), NO_TRACE, EncodeTrace(m)) == Ok(m)
  {
    hide Decode, EncodeTrace, TraceOk;
    DecodesTrace(NO_TRACE, m);
    assert [] + m.unrecognized == m.unrecognized;
    assert [] + m.fields.services == m.fields.services;
  }

  lemma {:induction false} StoresTraces(f: SummariesResponse, ts: seq<Message<TraceSummary>>)
    requires forall t <- ts :: TraceOk(t)
    requires |Repeated(1, EncodeTrace, ts)| < TWO_63
    ensures StoresAll(ResponseDesc(), 1, EncodeTrace, f, ts, f.(summaries := f.summaries + ts))
    decreases |ts|
  {
    hide Decode, EncodeTrace, TraceOk, EncodeField;
    if ts == [] {
      assert f.summaries + ts == f.summaries;
    } else {
      RepeatedBounds(1, EncodeTrace, ts, 0);
      TraceRoundTrip(ts[0]);
      StoresTraces(f.(summaries := f.summaries + [ts[0]]), ts[1..]);
      assert f.summaries + [ts[0]] + ts[1..] == f.summaries + ts;
    }
  }

  lemma DecodesResponse(a: Message<SummariesResponse>, b: Message<SummariesResponse>)
    requires ResponseOk(b) && |EncodeResponse(b)| < TWO_63
    ensures Decode(ResponseDesc(), a, EncodeResponse(b)) == Ok(MergeResponse(a, b))
  {
    hide Decode, OptChunk, Foreign, TraceOk, Repeated, StoresAll, EncodeTrace;
    var k, f := ResponseDesc(), MergeResponse(a, b).fields;
    var f1 := a.fields.(summaries := f.summaries);
    var second := OptChunk(2, b.fields.nextPageToken) + b.unrecognized;
    StoresTraces(a.fields, b.fields.summaries);
    DecodesRepeated(k, a, 1, EncodeTrace, b.fields.summaries, second, f1);
    ChunkBounds(2, b.fields.nextPageToken);
    DecodesOptChunk(k, a.(fields := f1), 2, b.fields.nextPageToken, b.unrecognized, f);
    DecodesForeign(k, a.(fields := f), b.unrecognized);
  }

  /** The three-level message survives the wire: negative counts, empty elements and
      unrecognized records at every level included. */
  lemma ResponseRoundTrip(m: Message<SummariesResponse>)
    requires ResponseOk(m) && |EncodeResponse(m)| < TWO_63
    ensures Decode(ResponseDesc(), NO_RESPONSE, EncodeResponse(m)) == Ok(m)
  {
    hide Decode, EncodeResponse, ResponseOk;
    DecodesResponse(NO_RESPONSE, m);
    assert [] + m.unrecognized == m.unrecognized;
    assert [] + m.fields.summaries == m.fields.summaries;
  }

  lemma PaginationRoundTrip(m: Message<Pagination>)
    requires PaginationOk(m) && |EncodePagination(m)| < TWO_63
    ensures Decode(PaginationDesc(), NO_PAGINATION, EncodePagination(m)) == Ok(m)
  {
    hide Decode, EncodePagination, PaginationOk;
    DecodesPagination(NO_PAGINATION, m);
    assert [] + m.unrecognized == m.unrecognized;
  }

  // ---------- Whatever was decoded can be encoded and decoded again ----------

  lemma DecodedServiceOk(m: Message<ServiceSummary>, d: Bytes)
    requires ServiceOk(m) && Decode(ServiceDesc(), m, d).Ok?
    ensures ServiceOk(Decode(ServiceDesc(), m, d).value)
  {
    hide Decode, Foreign;
    UnrecognizedStaysForeign(ServiceDesc(), m, d);
  }

  lemma DecodedTraceOk(m: Message<TraceSummary>, d: Bytes)
    requires TraceOk(m) && Decode(TraceDesc(), m, d).Ok?
    ensures TraceOk(Decode(TraceDesc(), m, d).value)
  {
    hide Decode, Foreign;
    UnrecognizedStaysForeign(TraceDesc(), m, d);
    forall f, n, p | TraceFieldsOk(f) && StoreTrace(f, n, p).Ok?
      ensures TraceFieldsOk(StoreTrace(f, n, p).value)
    {
      if n == 9 && p.Contents? {
        ForeignNothing(ServiceDesc());
        DecodedServiceOk(NO_SERVICE, p.chunk);
      }
    }
    DecodeKeeps(TraceDesc(), TraceFieldsOk, m, d);
  }

  lemma DecodedResponseOk(m: Message<SummariesResponse>, d: Bytes)
    requires ResponseOk(m) && Decode(ResponseDesc(), m, d).Ok?
    ensures ResponseOk(Decode(ResponseDesc(), m, d).value)
  {
    hide Decode, Foreign, TraceOk;
    UnrecognizedStaysForeign(ResponseDesc(), m, d);
    forall f, n, p | ResponseFieldsOk(f) && StoreResponse(f, n, p).Ok?
      ensures ResponseFieldsOk(StoreResponse(f, n, p).value)
    {
      if n == 1 && p.Contents? {
        NoTraceOk();
        DecodedTraceOk(NO_TRACE, p.chunk);
      }
    }
    DecodeKeeps(ResponseDesc(), ResponseFieldsOk, m, d);
  }

  lemma NoTraceOk()
    ensures TraceOk(NO_TRACE) && ResponseOk(NO_RESPONSE)
  {}

  /** Any bytes at all, canonical or not: what they decode to is what its own encoding decodes to. */
  lemma ReencodingIsStable(d: Bytes)
    requires Decode(ResponseDesc(), NO_RESPONSE, d).Ok?
    requires |EncodeResponse(Decode(ResponseDesc(), NO_RESPONSE, d).value)| < TWO_63
    ensures Decode(ResponseDesc(), NO_RESPONSE, EncodeResponse(Decode(ResponseDesc(), NO_RESPONSE, d).value))
         == Decode(ResponseDesc(), NO_RESPONSE, d)
  {
    hide Decode, EncodeResponse, ResponseOk, TraceOk;
    NoTraceOk();
    DecodedResponseOk(NO_RESPONSE, d);
    ResponseRoundTrip(Decode(ResponseDesc(), NO_RESPONSE, d).value);
  }

  /** Encodings may be concatenated: the decoder merges the messages they encode. */
  lemma ConcatenatedEncodingsMerge(a: Message<SummariesResponse>, b: Message<SummariesResponse>)
    requires ResponseOk(a) && ResponseOk(b)
    requires |EncodeResponse(a)| < TWO_63 && |EncodeResponse(b)| < TWO_63
    ensures Decode(ResponseDesc(), NO_RESPONSE, EncodeResponse(a) + EncodeResponse(b)) == Ok(MergeResponse(a, b))
  {
    hide Decode, EncodeResponse, ResponseOk, MergeResponse;
    ResponseRoundTrip(a);
    DecodeConcat(ResponseDesc(), NO_RESPONSE, EncodeResponse(a), EncodeResponse(b));
    DecodesResponse(a, b);
  }
}
