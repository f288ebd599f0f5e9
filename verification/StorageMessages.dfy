/**
 Messages of the remote-storage protocol: the query with its string map, its library-coded
 times and durations and its optional nesting, and the response with a repeated string.
 */
module StorageMessages {
  import opened Results
  import opened Wire
  import opened Decoding
  import opened Encoding
  import opened QueryMessages

  // ---------- Operation and GetOperationsResponse ----------

  datatype Operation = Operation(name: Bytes, spanKind: Bytes)

  const NO_OPERATION := Message(Operation([], []), [])

  function OperationKind(num: int): Kind {
    if num == 1 || num == 2 then Delimited else Unknown
  }

  function StoreOperation(f: Operation, num: int, p: Payload): Result<Operation, Error> {
    match (num, p)
    case (1, Contents(bs)) => Ok(f.(name := bs))
    case (2, Contents(bs)) => Ok(f.(spanKind := bs))
    case _ => Err(WrongWireType)
  }

  function OperationDesc(): Desc<Operation> {
    Desc(OperationKind, StoreOperation)
  }

  function EncodeOperation(m: Message<Operation>): Bytes {
    OptChunk(1, m.fields.name) + (OptChunk(2, m.fields.spanKind) + m.unrecognized)
  }

  datatype Operations = Operations(operationNames: seq<Bytes>, operations: seq<Message<Operation>>)

  const NO_OPERATIONS := Message(Operations([], []), [])

  function StoreOperations(f: Operations, num: int, p: Payload): Result<Operations, Error> {
    match (num, p)
    case (1, Contents(bs)) => Ok(f.(operationNames := f.operationNames + [bs]))
    case (2, Contents(bs)) =>
      var o :- Decode(OperationDesc(), NO_OPERATION, bs);
      Ok(f.(operations := f.operations + [o]))
    case _ => Err(WrongWireType)
  }

  function OperationsDesc(): Desc<Operations> {
    Desc(OperationKind, StoreOperations)
  }

  function Verbatim(bs: Bytes): Bytes {
    bs
  }

  function EncodeOperations(m: Message<Operations>): Bytes {
    Repeated(1, Verbatim, m.fields.operationNames) + (
      Repeated(2, EncodeOperation, m.fields.operations) + m.unrecognized)
  }

  predicate OperationOk(m: Message<Operation>) {
    Foreign(OperationDesc(), m.unrecognized)
  }

  predicate OperationsOk(m: Message<Operations>) {
    Foreign(OperationsDesc(), m.unrecognized) && forall o <- m.fields.operations :: OperationOk(o)
  }

  lemma OperationRoundTrip(m: Message<Operation>)
    requires OperationOk(m) && |EncodeOperation(m)| < TWO_63
    ensures Decode(OperationDesc(), NO_OPERATION, EncodeOperation(m)) == Ok(m)
  {
    hide Decode, OptChunk, Foreign;
    var k, z := OperationDesc(), NO_OPERATION;
    var f1 := z.fields.(name := m.fields.name);
    ChunkBounds(1, m.fields.name);
    ChunkBounds(2, m.fields.spanKind);
    DecodesOptChunk(k, z, 1, m.fields.name, OptChunk(2, m.fields.spanKind) + m.unrecognized, f1);
    DecodesOptChunk(k, z.(fields := f1), 2, m.fields.spanKind, m.unrecognized, m.fields);
    DecodesForeign(k, z.(fields := m.fields), m.unrecognized);
    assert [] + m.unrecognized == m.unrecognized;
  }

  lemma {:induction false} StoresNames(f: Operations, ns: seq<Bytes>)
    ensures StoresAll(OperationsDesc(), 1, Verbatim, f, ns, f.(operationNames := f.operationNames + ns))
    decreases |ns|
  {
    if ns == [] {
      assert f.operationNames + ns == f.operationNames;
    } else {
      StoresNames(f.(operationNames := f.operationNames + [ns[0]]), ns[1..]);
      assert f.operationNames + [ns[0]] + ns[1..] == f.operationNames + ns;
    }
  }

  lemma {:induction false} StoresOperations(f: Operations, os: seq<Message<Operation>>)
    requires forall o <- os :: OperationOk(o)
    requires |Repeated(2, EncodeOperation, os)| < TWO_63
    ensures StoresAll(OperationsDesc(), 2, EncodeOperation, f, os, f.(operations := f.operations + os))
    decreases |os|
  {
    hide Decode, EncodeOperation, OperationOk, EncodeField;
    if os == [] {
      assert f.operations + os == f.operations;
    } else {
      RepeatedBounds(2, EncodeOperation, os, 0);
      OperationRoundTrip(os[0]);
      StoresOperations(f.(operations := f.operations + [os[0]]), os[1..]);
      assert f.operations + [os[0]] + os[1..] == f.operations + os;
    }
  }

  /** A repeated string keeps its empty elements. */
  lemma OperationsRoundTrip(m: Message<Operations>)
    requires OperationsOk(m) && |EncodeOperations(m)| < TWO_63
    ensures Decode(OperationsDesc(), NO_OPERATIONS, EncodeOperations(m)) == Ok(m)
  {
    hide Decode, OptChunk, Foreign, Repeated, StoresAll, EncodeOperation, Verbatim;
    var k, z := OperationsDesc(), NO_OPERATIONS;
    var f1 := z.fields.(operationNames := m.fields.operationNames);
    assert [] + m.fields.operationNames == m.fields.operationNames;
    assert [] + m.fields.operations == m.fields.operations;
    var second := Repeated(2, EncodeOperation, m.fields.operations) + m.unrecognized;
    StoresNames(z.fields, m.fields.operationNames);
    DecodesRepeated(k, z, 1, Verbatim, m.fields.operationNames, second, f1);
    StoresOperations(f1, m.fields.operations);
    DecodesRepeated(k, z.(fields := f1), 2, EncodeOperation, m.fields.operations, m.unrecognized, m.fields);
    DecodesForeign(k, z.(fields := m.fields), m.unrecognized);
    assert [] + m.unrecognized == m.unrecognized;
  }

  // ---------- TraceQueryParameters ----------

  /** The library's codecs for the time and duration fields, whatever they are. */
  datatype Library<!T, !D> = Library(
    zeroTime: T,
    zeroDuration: D,
    writeTime: T -> Result<Bytes, Error>,
    readTime: Bytes -> Result<T, Error>,
    writeDuration: D -> Result<Bytes, Error>,
    readDuration: Bytes -> Result<D, Error>)

  /** All the model asks of the library: what it can write, it reads back. */
  ghost predicate Faithful<T(!new), D(!new)>(lib: Library<T, D>) {
    && (forall t | lib.writeTime(t).Ok? :: lib.readTime(lib.writeTime(t).value) == Ok(t))
    && (forall d | lib.writeDuration(d).Ok? :: lib.readDuration(lib.writeDuration(d).value) == Ok(d))
  }

  /** What the library writes of a value; nothing, and of size zero, of one it refuses. */
  function Written<V>(write: V -> Result<Bytes, Error>, v: V): Bytes {
    match write(v)
    case Ok(bs) => bs
    case Err(_) => []
  }

  /** The error an encoder comes upon first, from the last field to the first, if there is one. */
  function Refusal<T, D>(lib: Library<T, D>, f: Query<T, D>): Option<Error> {
    if lib.writeDuration(f.durationMax).Err? then Some(lib.writeDuration(f.durationMax).error)
    else if lib.writeDuration(f.durationMin).Err? then Some(lib.writeDuration(f.durationMin).error)
    else if lib.writeTime(f.startTimeMax).Err? then Some(lib.writeTime(f.startTimeMax).error)
    else if lib.writeTime(f.startTimeMin).Err? then Some(lib.writeTime(f.startTimeMin).error)
    else None
  }

  datatype Query<+T, +D> = Query(
    serviceName: Bytes,
    operationName: Bytes,
    tags: map<Bytes, Bytes>,
    startTimeMin: T,
    startTimeMax: T,
    durationMin: D,
    durationMax: D,
    numTraces: Int32)

  function NoQuery<T, D>(lib: Library<T, D>): Message<Query<T, D>> {
    Message(Query([], [], map[], lib.zeroTime, lib.zeroTime, lib.zeroDuration, lib.zeroDuration, 0), [])
  }

  function QueryKind(num: int): Kind {
    if num == 3 then MapEntry
    else if num == 8 then Scalar
    else if 1 <= num <= 7 then Delimited
    else Unknown
  }

  function StoreQuery<T, D>(lib: Library<T, D>, f: Query<T, D>, num: int, p: Payload): Result<Query<T, D>, Error> {
    match (num, p)
    case (1, Contents(bs)) => Ok(f.(serviceName := bs))
    case (2, Contents(bs)) => Ok(f.(operationName := bs))
    case (3, Entry(k, v)) => Ok(f.(tags := f.tags[k := v]))
    case (4, Contents(bs)) =>
      var t :- lib.readTime(bs);
      Ok(f.(startTimeMin := t))
    case (5, Contents(bs)) =>
      var t :- lib.readTime(bs);
      Ok(f.(startTimeMax := t))
    case (6, Contents(bs)) =>
      var d :- lib.readDuration(bs);
      Ok(f.(durationMin := d))
    case (7, Contents(bs)) =>
      var d :- lib.readDuration(bs);
      Ok(f.(durationMax := d))
    case (8, Number(v)) => Ok(f.(numTraces := ToInt32(v)))
    case _ => Err(WrongWireType)
  }

  function QueryDesc<T, D>(lib: Library<T, D>): Desc<Query<T, D>> {
    Desc(QueryKind, (f: Query<T, D>, num: int, p: Payload) => StoreQuery(lib, f, num, p))
  }

  /** The map entries in the order in which they end up in the buffer.  Go's map iteration may
      produce any order, so the encoding is a function of it. */
  function EncodeTags(tags: map<Bytes, Bytes>, order: seq<Bytes>): Bytes
    requires forall k <- order :: k in tags
  {
    if order == [] then []
    else EncodeField(3, MapEntry, Entry(order[0], tags[order[0]])) + EncodeTags(tags, order[1..])
  }

  /** `order` lists every key of `tags` once. */
  ghost predicate Enumerates(order: seq<Bytes>, tags: map<Bytes, Bytes>) {
    && (forall k :: k in order <==> k in tags)
    && forall i, j | 0 <= i < j < |order| :: order[i] != order[j]
  }

  function EncodeQuery<T, D>(lib: Library<T, D>, m: Message<Query<T, D>>, order: seq<Bytes>): Bytes
    requires forall k <- order :: k in m.fields.tags
  {
    OptChunk(1, m.fields.serviceName) + (
      OptChunk(2, m.fields.operationName) + (
        EncodeTags(m.fields.tags, order) + EncodeQueryTail(lib, m)))
  }

  /** The library-coded fields are written whatever their value. */
  function EncodeQueryTail<T, D>(lib: Library<T, D>, m: Message<Query<T, D>>): Bytes {
    EncodeField(4, Delimited, Contents(Written(lib.writeTime, m.fields.startTimeMin))) + (
      EncodeField(5, Delimited, Contents(Written(lib.writeTime, m.fields.startTimeMax))) + (
        EncodeField(6, Delimited, Contents(Written(lib.writeDuration, m.fields.durationMin))) + (
          EncodeField(7, Delimited, Contents(Written(lib.writeDuration, m.fields.durationMax))) + (
            OptScalar(8, ToUint64(m.fields.numTraces)) + m.unrecognized))))
  }

  /** Library-coded fields are always present in an encoding, so the newer message's win. */
  function MergeQuery<T, D>(a: Message<Query<T, D>>, b: Message<Query<T, D>>): Message<Query<T, D>> {
    Message(
      b.fields.(
        serviceName := Override([], a.fields.serviceName, b.fields.serviceName),
        operationName := Override([], a.fields.operationName, b.fields.operationName),
        tags := a.fields.tags + b.fields.tags,
        numTraces := Override(0, a.fields.numTraces, b.fields.numTraces)),
      a.unrecognized + b.unrecognized)
  }

  predicate QueryOk<T, D>(lib: Library<T, D>, m: Message<Query<T, D>>) {
    Foreign(QueryDesc(lib), m.unrecognized) && Refusal(lib, m.fields) == None
  }

  /** `old_` with the listed keys taken from `tags`. */
  function Restrict(tags: map<Bytes, Bytes>, order: seq<Bytes>): map<Bytes, Bytes> {
    map k | k in tags && k in order :: tags[k]
  }

  lemma {:induction false} DecodesTags<T, D>(
      lib: Library<T, D>, m: Message<Query<T, D>>, tags: map<Bytes, Bytes>, order: seq<Bytes>, rest: Bytes)
    requires forall k <- order :: k in tags
    requires |EncodeTags(tags, order)| < TWO_63
    ensures Decode(QueryDesc(lib), m, EncodeTags(tags, order) + rest)
         == Decode(QueryDesc(lib), m.(fields := m.fields.(tags := m.fields.tags + Restrict(tags, order))), rest)
    decreases |order|
  {
    hide Decode, EncodeEntry, Varint;
    if order == [] {
      assert EncodeTags(tags, order) + rest == rest;
      assert m.fields.tags + Restrict(tags, order) == m.fields.tags;
    } else {
      var k, v := order[0], tags[order[0]];
      var tail := EncodeTags(tags, order[1..]);
      assert EncodeTags(tags, order) + rest == EncodeField(3, MapEntry, Entry(k, v)) + (tail + rest);
      DecodesField(QueryDesc(lib), m, 3, Entry(k, v), tail + rest);
      var m' := m.(fields := m.fields.(tags := m.fields.tags[k := v]));
      DecodesTags(lib, m', tags, order[1..], rest);
      assert m.fields.tags[k := v] + Restrict(tags, order[1..]) == m.fields.tags + Restrict(tags, order);
    }
  }

  lemma DecodesQueryTail<T(!new), D(!new)>(lib: Library<T, D>, a: Message<Query<T, D>>, b: Message<Query<T, D>>)
    requires Faithful(lib) && QueryOk(lib, b) && |EncodeQueryTail(lib, b)| < TWO_63
    ensures Decode(QueryDesc(lib), a, EncodeQueryTail(lib, b))
         == Ok(Message(
              a.fields.(
                startTimeMin := b.fields.startTimeMin,
                startTimeMax := b.fields.startTimeMax,
                durationMin := b.fields.durationMin,
                durationMax := b.fields.durationMax,
                numTraces := Override(0, a.fields.numTraces, b.fields.numTraces)),
              a.unrecognized + b.unrecognized))
  {
    hide Decode, OptScalar, Foreign, ToUint64, ToInt32, Varint;
    var k := QueryDesc(lib);
    Int32Survives(b.fields.numTraces);
    var f4 := a.fields.(startTimeMin := b.fields.startTimeMin);
    var f5 := f4.(startTimeMax := b.fields.startTimeMax);
    var f6 := f5.(durationMin := b.fields.durationMin);
    var f7 := f6.(durationMax := b.fields.durationMax);
    var f8 := f7.(numTraces := Override(0, a.fields.numTraces, b.fields.numTraces));
    var eighth := OptScalar(8, ToUint64(b.fields.numTraces)) + b.unrecognized;
    var seventh := EncodeField(7, Delimited, Contents(Written(lib.writeDuration, b.fields.durationMax))) + eighth;
    var sixth := EncodeField(6, Delimited, Contents(Written(lib.writeDuration, b.fields.durationMin))) + seventh;
    var fifth := EncodeField(5, Delimited, Contents(Written(lib.writeTime, b.fields.startTimeMax))) + sixth;
    DecodesField(k, a, 4, Contents(Written(lib.writeTime, b.fields.startTimeMin)), fifth);
    DecodesField(k, a.(fields := f4), 5, Contents(Written(lib.writeTime, b.fields.startTimeMax)), sixth);
    DecodesField(k, a.(fields := f5), 6, Contents(Written(lib.writeDuration, b.fields.durationMin)), seventh);
    DecodesField(k, a.(fields := f6), 7, Contents(Written(lib.writeDuration, b.fields.durationMax)), eighth);
    DecodesOptInt32(k, a.(fields := f7), 8, b.fields.numTraces, b.unrecognized, f8);
    DecodesForeign(k, a.(fields := f8), b.unrecognized);
  }

  /** Decoding a query onto another merges them, in whatever order the map was written. */
  lemma DecodesQuery<T(!new), D(!new)>(
      lib: Library<T, D>, a: Message<Query<T, D>>, b: Message<Query<T, D>>, order: seq<Bytes>)
    requires Faithful(lib) && QueryOk(lib, b) && Enumerates(order, b.fields.tags)
    requires |EncodeQuery(lib, b, order)| < TWO_63
    ensures Decode(QueryDesc(lib), a, EncodeQuery(lib, b, order)) == Ok(MergeQuery(a, b))
  {
    hide Decode, OptChunk, EncodeTags, EncodeQueryTail, QueryOk;
    var k := QueryDesc(lib);
    var f1 := a.fields.(serviceName := Override([], a.fields.serviceName, b.fields.serviceName));
    var f2 := f1.(operationName := Override([], a.fields.operationName, b.fields.operationName));
    var f3 := f2.(tags := f2.tags + Restrict(b.fields.tags, order));
    var tail := EncodeQueryTail(lib, b);
    var third := EncodeTags(b.fields.tags, order) + tail;
    ChunkBounds(1, b.fields.serviceName);
    ChunkBounds(2, b.fields.operationName);
    DecodesOptChunk(k, a, 1, b.fields.serviceName, OptChunk(2, b.fields.operationName) + third, f1);
    DecodesOptChunk(k, a.(fields := f1), 2, b.fields.operationName, third, f2);
    DecodesTags(lib, a.(fields := f2), b.fields.tags, order, tail);
    assert Restrict(b.fields.tags, order) == b.fields.tags;
    DecodesQueryTail(lib, a.(fields := f3), b);
  }

  lemma QueryRoundTrip<T(!new), D(!new)>(lib: Library<T, D>, m: Message<Query<T, D>>, order: seq<Bytes>)
    requires Faithful(lib) && QueryOk(lib, m) && Enumerates(order, m.fields.tags)
    requires |EncodeQuery(lib, m, order)| < TWO_63
    ensures Decode(QueryDesc(lib), NoQuery(lib), EncodeQuery(lib, m, order)) == Ok(m)
  {
    hide Decode, EncodeQuery, QueryOk;
    DecodesQuery(lib, NoQuery(lib), m, order);
    assert [] + m.unrecognized == m.unrecognized;
    assert map[] + m.fields.tags == m.fields.tags;
  }

  // ---------- FindTracesRequest: an optional nested message, merged when it occurs again ----------

  datatype Request<+T, +D> = Request(query: Option<Message<Query<T, D>>>)

  function RequestKind(num: int): Kind {
    if num == 1 then Delimited else Unknown
  }

  function StoreRequest<T, D>(
      lib: Library<T, D>, f: Request<T, D>, num: int, p: Payload): Result<Request<T, D>, Error> {
    match (num, p)
    case (1, Contents(bs)) =>
      var q :- Decode(QueryDesc(lib), f.query.GetOr(NoQuery(lib)), bs);
      Ok(Request(Some(q)))
    case _ => Err(WrongWireType)
  }

  function RequestDesc<T, D>(lib: Library<T, D>): Desc<Request<T, D>> {
    Desc(RequestKind, (f: Request<T, D>, num: int, p: Payload) => StoreRequest(lib, f, num, p))
  }

  function EncodeRequest<T, D>(lib: Library<T, D>, m: Message<Request<T, D>>, order: seq<Bytes>): Bytes
    requires m.fields.query.Some? ==> forall k <- order :: k in m.fields.query.value.fields.tags
  {
    (match m.fields.query
     case None => []
     case Some(q) => EncodeField(1, Delimited, Contents(EncodeQuery(lib, q, order)))) + m.unrecognized
  }

  lemma RequestRoundTrip<T(!new), D(!new)>(lib: Library<T, D>, m: Message<Request<T, D>>, order: seq<Bytes>)
    requires Faithful(lib) && Foreign(RequestDesc(lib), m.unrecognized)
    requires m.fields.query.Some? ==>
               QueryOk(lib, m.fields.query.value) && Enumerates(order, m.fields.query.value.fields.tags)
    requires |EncodeRequest(lib, m, order)| < TWO_63
    ensures Decode(RequestDesc(lib), Message(Request(None), []), EncodeRequest(lib, m, order)) == Ok(m)
  {
    hide Decode, EncodeQuery, QueryOk, Foreign, Varint;
    var k, z := RequestDesc(lib), Message(Request(None), []);
    match m.fields.query
    case None =>
      assert EncodeRequest(lib, m, order) == m.unrecognized;
      DecodesForeign(k, z, m.unrecognized);
    case Some(q) =>
      QueryRoundTrip(lib, q, order);
      DecodesField(k, z, 1, Contents(EncodeQuery(lib, q, order)), m.unrecognized);
      DecodesForeign(k, z.(fields := m.fields), m.unrecognized);
      assert [] + m.unrecognized == m.unrecognized;
  }

  /** The nested query after one more occurrence of its field. */
  lemma DecodesNestedQuery<T, D>(
      lib: Library<T, D>, m: Message<Request<T, D>>, a: Bytes, q: Message<Query<T, D>>, rest: Bytes)
    requires |a| < TWO_63
    requires Decode(QueryDesc(lib), m.fields.query.GetOr(NoQuery(lib)), a) == Ok(q)
    ensures Decode(RequestDesc(lib), m, EncodeField(1, Delimited, Contents(a)) + rest)
         == Decode(RequestDesc(lib), m.(fields := Request(Some(q))), rest)
  {
    hide Decode, EncodeField;
    DecodesField(RequestDesc(lib), m, 1, Contents(a), rest);
  }

  /** A nested message split over two occurrences of its field is the nested message of the
      joined bytes. */
  lemma SplitNestedMessageMerges<T, D>(lib: Library<T, D>, m: Message<Request<T, D>>, a: Bytes, b: Bytes, rest: Bytes)
    requires |a + b| < TWO_63
    requires Decode(QueryDesc(lib), m.fields.query.GetOr(NoQuery(lib)), a).Ok?
    requires Decode(QueryDesc(lib), m.fields.query.GetOr(NoQuery(lib)), a + b).Ok?
    ensures Decode(
              RequestDesc(lib), m,
              EncodeField(1, Delimited, Contents(a)) + (EncodeField(1, Delimited, Contents(b)) + rest))
         == Decode(RequestDesc(lib), m, EncodeField(1, Delimited, Contents(a + b)) + rest)
  {
    hide Decode, EncodeField;
    var q := m.fields.query.GetOr(NoQuery(lib));
    DecodeConcat(QueryDesc(lib), q, a, b);
    var q' := Decode(QueryDesc(lib), q, a).value;
    var q'' := Decode(QueryDesc(lib), q', b).value;
    DecodesNestedQuery(lib, m, a, q', EncodeField(1, Delimited, Contents(b)) + rest);
    DecodesNestedQuery(lib, m.(fields := Request(Some(q'))), b, q'', rest);
    DecodesNestedQuery(lib, m, a + b, q'', rest);
  }
}
