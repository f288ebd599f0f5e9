/**
 The generated structs of the trace-summary messages: their sizes, their encoders, which fill a
 buffer from its end, and their decoders, which fill the struct in place.
 */
module QueryStructs {
  import opened Results
  import opened Wire
  import opened Decoding
  import opened Encoding
  import opened QueryMessages
  import opened Bits
  import opened Cursor
  import opened Tail

  /** What a decoder reports: nothing when the specification succeeds, and otherwise its error, up
      to the wrapped lengths that `Agrees` describes. */
  predicate Reports<F>(err: Option<Error>, spec: Result<Message<F>, Error>) {
    match err
    case None => spec.Ok?
    case Some(e) => spec.Err? && (e == spec.error || (e == InvalidLength && spec.error == UnexpectedEOF))
  }

  /** A nested message: a chunk, and what decoding it reports. */
  ghost predicate NestedReports<F>(
      r: Result<nat, Error>, wireType: nat, d: Bytes, at: nat, decode: Bytes -> Result<Message<F>, Error>) {
    if wireType != 2 then r == Err(WrongWireType)
    else match ReadChunk(d)
      case Err(e) => Agrees(r, Err(e))
      case Ok((bs, n)) =>
        match decode(bs)
        case Err(e) => Agrees(r, Err(e))
        case Ok(_) => r == Ok(at + n)
  }

  class ServiceSummaryStruct {
    var name: Bytes
    var spanCount: Int32
    var errorSpanCount: Int32
    var unrecognized: Bytes

    constructor ()
      ensures Value() == NO_SERVICE
    {
      name, spanCount, errorSpanCount, unrecognized := [], 0, 0, [];
    }

    function Value(): Message<ServiceSummary>
      reads this
    {
      Message(ServiceSummary(name, spanCount, errorSpanCount), unrecognized)
    }

    method Size() returns (n: nat)
      requires |EncodeService(Value())| < TWO_63
      ensures n == |EncodeService(Value())|
    {
      hide OptChunk, OptScalar;
      ChunkBounds(1, name);
      n := SizeOfOptChunk(1, name);
      var l := SizeOfOptScalar(2, ToUint64(spanCount));
      n := n + l;
      l := SizeOfOptScalar(3, ToUint64(errorSpanCount));
      n := n + l;
      n := n + |unrecognized|;
    }

    method MarshalToSizedBuffer(dAtA: array<Byte>, end: nat) returns (n: nat)
      requires |EncodeService(Value())| <= end <= dAtA.Length <= MAX_LEN
      modifies dAtA
      ensures n == |EncodeService(Value())|
      ensures dAtA[..] == Splice(old(dAtA[..]), end - n, EncodeService(Value()))
    {
      hide OptChunk, OptScalar, Splice;
      ghost var was := dAtA[..];
      ghost var third := OptScalar(3, ToUint64(errorSpanCount)) + unrecognized;
      ghost var second := OptScalar(2, ToUint64(spanCount)) + third;
      ChunkBounds(1, name);
      var i := PutUnrecognized(dAtA, end, unrecognized, was);
      i := PutOptScalar(dAtA, i, 3, 0x18, ToUint64(errorSpanCount), was, unrecognized);
      i := PutOptScalar(dAtA, i, 2, 0x10, ToUint64(spanCount), was, third);
      i := PutOptChunk(dAtA, i, 1, 0x0a, name, was, second);
      n := end - i;
    }

    /** The switch on the field number. */
    method UnmarshalField(dAtA: Bytes, iNdEx: nat, fieldNum: int, wireType: nat, at: nat)
      returns (r: Result<nat, Error>)
      requires iNdEx < |dAtA| <= MAX_LEN
      requires Tagged(dAtA, iNdEx, fieldNum, wireType, at)
      modifies this
      ensures StepReports(r, Step(ServiceDesc(), old(Value()), dAtA[iNdEx..]), Value(), iNdEx)
      ensures r.Ok? ==> r.value <= |dAtA|
    {
      hide Step, ReadVarint, ReadUnknown;
      StepAfterTag(ServiceDesc(), Value(), dAtA, iNdEx, fieldNum, wireType, at);
      match fieldNum {
        case 1 =>
          var f :- StringField(dAtA, at, wireType);
          name := f.0;
          return Ok(f.1);
        case 2 =>
          var f :- Int32Field(dAtA, at, wireType);
          spanCount := f.0;
          return Ok(f.1);
        case 3 =>
          var f :- Int32Field(dAtA, at, wireType);
          errorSpanCount := f.0;
          return Ok(f.1);
        case _ =>
          var skippy :- SkipUnknown(dAtA, iNdEx);
          unrecognized := unrecognized + dAtA[iNdEx..iNdEx + skippy];
          return Ok(iNdEx + skippy);
      }
    }

    method Unmarshal(dAtA: Bytes) returns (err: Option<Error>)
      requires |dAtA| <= MAX_LEN
      modifies this
      ensures Reports(err, Decode(ServiceDesc(), old(Value()), dAtA))
      ensures err.None? ==> Decode(ServiceDesc(), old(Value()), dAtA) == Ok(Value())
    {
      hide Decode, Step, ReadVarint;
      ghost var k, spec := ServiceDesc(), Decode(ServiceDesc(), Value(), dAtA);
      var iNdEx := 0;
      assert dAtA[0..] == dAtA;
      while iNdEx < |dAtA|
        invariant iNdEx <= |dAtA|
        invariant spec == Decode(k, Value(), dAtA[iNdEx..])
        decreases |dAtA| - iNdEx
      {
        DecodeUnfolds(k, Value(), dAtA, iNdEx);
        StepWithoutTag(k, Value(), dAtA[iNdEx..]);
        var tag := ReadTag(dAtA, iNdEx);
        if tag.Err? {
          return Some(tag.error);
        }
        var next := UnmarshalField(dAtA, iNdEx, tag.value.0, tag.value.1, tag.value.2);
        if next.Err? {
          return Some(next.error);
        }
        iNdEx := next.value;
      }
      DecodeNothing(k, Value());
      assert dAtA[iNdEx..] == [];
      return None;
    }
  }

  function Values(ss: seq<ServiceSummaryStruct>): (vs: seq<Message<ServiceSummary>>)
    reads ss
    ensures |vs| == |ss|
  {
    if ss == [] then [] else [ss[0].Value()] + Values(ss[1..])
  }

  lemma {:induction false} ValuesAt(ss: seq<ServiceSummaryStruct>, i: nat)
    requires i < |ss|
    ensures Values(ss)[i] == ss[i].Value()
    ensures Values(ss[i..]) == Values(ss)[i..]
  {
    if i > 0 {
      ValuesAt(ss[1..], i - 1);
      assert ss[1..][i - 1..] == ss[i..];
      assert Values(ss)[i..] == Values(ss[1..])[i - 1..];
    } else {
      assert ss[0..] == ss;
    }
  }

  lemma {:induction false} ValuesAppend(ss: seq<ServiceSummaryStruct>, s: ServiceSummaryStruct)
    ensures Values(ss + [s]) == Values(ss) + [s.Value()]
  {
    if ss == [] {
      assert ss + [s] == [s];
      assert Values([s]) == [s.Value()] + Values([]);
    } else {
      ValuesAppend(ss[1..], s);
      assert (ss + [s])[1..] == ss[1..] + [s];
    }
  }

  /** The elements from `i` on, in front of which element `i - 1` is written next. */
  lemma {:induction false} RepeatedSuffix<M>(num: nat, encode: M -> Bytes, ms: seq<M>, i: nat)
    requires 0 < i <= |ms|
    ensures Repeated(num, encode, ms[i - 1..])
            == EncodeField(num, Delimited, Contents(encode(ms[i - 1]))) + Repeated(num, encode, ms[i..])
    ensures |Repeated(num, encode, ms[i - 1..])| <= |Repeated(num, encode, ms)|
    decreases i
  {
    hide Varint;
    assert ms[i - 1..][1..] == ms[i..];
    if i > 1 {
      RepeatedSuffix(num, encode, ms, i - 1);
    } else {
      assert ms[0..] == ms;
    }
  }

  class TraceSummaryStruct {
    var traceId: Bytes
    var rootServiceName: Bytes
    var rootOperationName: Bytes
    var minStartTimeUnixNano: Uint64
    var maxEndTimeUnixNano: Uint64
    var spanCount: Int32
    var errorSpanCount: Int32
    var orphanSpanCount: Int32
    var services: seq<ServiceSummaryStruct>
    var unrecognized: Bytes

    constructor ()
      ensures Value() == NO_TRACE && services == []
    {
      traceId, rootServiceName, rootOperationName := [], [], [];
      minStartTimeUnixNano, maxEndTimeUnixNano := 0, 0;
      spanCount, errorSpanCount, orphanSpanCount := 0, 0, 0;
      services, unrecognized := [], [];
    }

    function Value(): Message<TraceSummary>
      reads this, services
    {
      Message(
        TraceSummary(
          traceId, rootServiceName, rootOperationName, minStartTimeUnixNano, maxEndTimeUnixNano,
          spanCount, errorSpanCount, orphanSpanCount, Values(services)),
        unrecognized)
    }

    method SizeOfServices() returns (n: nat)
      requires |Repeated(9, EncodeService, Values(services))| < TWO_63
      ensures n == |Repeated(9, EncodeService, Values(services))|
    {
      hide Varint, BitOr, BitLen, EncodeService, EncodeField, Repeated, Values;
      n := 0;
      ghost var vs := Values(services);
      var i: nat := |services|;
      assert vs[i..] == [];
      NothingRepeated<Message<ServiceSummary>>(9, EncodeService);
      while i > 0
        invariant i <= |services|
        invariant n == |Repeated(9, EncodeService, vs[i..])|
      {
        RepeatedSuffix(9, EncodeService, vs, i);
        ValuesAt(services, i - 1);
        FieldLength(9, EncodeService(vs[i - 1]));
        var l := services[i - 1].Size();
        SovIsVarintLength(l);
        n := n + 1 + l + Sov(l);
        i := i - 1;
      }
      assert vs[0..] == vs;
    }

    method Size() returns (n: nat)
      requires |EncodeTrace(Value())| < TWO_63
      ensures n == |EncodeTrace(Value())|
    {
      hide OptChunk, OptScalar, OptFixed, Repeated, EncodeService, ToUint64;
      ChunkBounds(1, traceId);
      ChunkBounds(2, rootServiceName);
      ChunkBounds(3, rootOperationName);
      n := SizeOfOptChunk(1, traceId);
      var l := SizeOfOptChunk(2, rootServiceName);
      n := n + l;
      l := SizeOfOptChunk(3, rootOperationName);
      n := n + l;
      l := SizeOfOptFixed64(4, minStartTimeUnixNano);
      n := n + l;
      l := SizeOfOptFixed64(5, maxEndTimeUnixNano);
      n := n + l;
      l := SizeOfOptScalar(6, ToUint64(spanCount));
      n := n + l;
      l := SizeOfOptScalar(7, ToUint64(errorSpanCount));
      n := n + l;
      l := SizeOfOptScalar(8, ToUint64(orphanSpanCount));
      n := n + l;
      l := SizeOfServices();
      n := n + l;
      n := n + |unrecognized|;
    }

    /** The services, from the last to the first. */
    method MarshalServices(dAtA: array<Byte>, end: nat, ghost was: Bytes) returns (i: nat)
      requires |Repeated(9, EncodeService, Values(services))| <= end <= dAtA.Length <= MAX_LEN
      requires Filled(dAtA[..], was, end, unrecognized)
      modifies dAtA
      ensures i == end - |Repeated(9, EncodeService, Values(services))|
      ensures Filled(dAtA[..], was, i, Repeated(9, EncodeService, Values(services)) + unrecognized)
    {
      hide Varint, EncodeService, Splice, EncodeField, Repeated, Values, Filled;
      i := end;
      ghost var vs := Values(services);
      var j: nat := |services|;
      NothingRepeated<Message<ServiceSummary>>(9, EncodeService);
      assert vs[j..] == [];
      assert [] + unrecognized == unrecognized;
      while j > 0
        invariant j <= |services|
        invariant i == end - |Repeated(9, EncodeService, vs[j..])|
        invariant Filled(dAtA[..], was, i, Repeated(9, EncodeService, vs[j..]) + unrecognized)
      {
        RepeatedSuffix(9, EncodeService, vs, j);
        ValuesAt(services, j - 1);
        j := j - 1;
        ghost var before, done := dAtA[..], Repeated(9, EncodeService, vs[j + 1..]) + unrecognized;
        FieldLength(9, EncodeService(vs[j]));
        var size := services[j].MarshalToSizedBuffer(dAtA, i);
        FilledBySplice(before, i - size, EncodeService(vs[j]));
        FilledOneMore(before, was, i, done, dAtA[..], EncodeService(vs[j]));
        i := i - size;
        i := PutLength(dAtA, i, 9, 0x4a, size, EncodeService(vs[j]), was, done);
        assert EncodeField(9, Delimited, Contents(EncodeService(vs[j]))) + done
            == Repeated(9, EncodeService, vs[j..]) + unrecognized;
      }
      assert vs[0..] == vs;
    }

    /** The encoder's first half: what ends up last. */
    method MarshalTail(dAtA: array<Byte>, end: nat) returns (i: nat)
      requires |EncodeTraceTail(Value())| <= end <= dAtA.Length <= MAX_LEN
      modifies dAtA
      ensures i == end - |EncodeTraceTail(Value())|
      ensures Filled(dAtA[..], old(dAtA[..]), i, EncodeTraceTail(Value()))
    {
      hide OptChunk, OptScalar, Splice, Repeated, EncodeService, ToUint64, Values, Filled;
      ghost var was := dAtA[..];
      ghost var ninth := Repeated(9, EncodeService, Values(services)) + unrecognized;
      ghost var eighth := OptScalar(8, ToUint64(orphanSpanCount)) + ninth;
      ghost var seventh := OptScalar(7, ToUint64(errorSpanCount)) + eighth;
      i := PutUnrecognized(dAtA, end, unrecognized, was);
      i := MarshalServices(dAtA, i, was);
      i := PutOptScalar(dAtA, i, 8, 0x40, ToUint64(orphanSpanCount), was, ninth);
      i := PutOptScalar(dAtA, i, 7, 0x38, ToUint64(errorSpanCount), was, eighth);
      i := PutOptScalar(dAtA, i, 6, 0x30, ToUint64(spanCount), was, seventh);
    }

    method MarshalToSizedBuffer(dAtA: array<Byte>, end: nat) returns (n: nat)
      requires |EncodeTrace(Value())| <= end <= dAtA.Length <= MAX_LEN
      modifies dAtA
      ensures n == |EncodeTrace(Value())|
      ensures dAtA[..] == Splice(old(dAtA[..]), end - n, EncodeTrace(Value()))
    {
      hide OptChunk, OptFixed, Splice, EncodeTraceTail, Values, Filled;
      ghost var was := dAtA[..];
      ghost var sixth := EncodeTraceTail(Value());
      ghost var fifth := OptFixed(5, maxEndTimeUnixNano) + sixth;
      ghost var fourth := OptFixed(4, minStartTimeUnixNano) + fifth;
      ghost var third := OptChunk(3, rootOperationName) + fourth;
      ghost var second := OptChunk(2, rootServiceName) + third;
      ChunkBounds(1, traceId);
      ChunkBounds(2, rootServiceName);
      ChunkBounds(3, rootOperationName);
      var i := MarshalTail(dAtA, end);
      i := PutOptFixed64(dAtA, i, 5, 0x29, maxEndTimeUnixNano, was, sixth);
      i := PutOptFixed64(dAtA, i, 4, 0x21, minStartTimeUnixNano, was, fifth);
      i := PutOptChunk(dAtA, i, 3, 0x1a, rootOperationName, was, fourth);
      i := PutOptChunk(dAtA, i, 2, 0x12, rootServiceName, was, third);
      i := PutOptChunk(dAtA, i, 1, 0x0a, traceId, was, second);
      n := end - i;
      FilledIsSplice(dAtA[..], was, i, EncodeTrace(Value()));
    }

    /** A new, empty element is appended and decodes the chunk. */
    method AppendService(dAtA: Bytes, at: nat, wireType: nat) returns (r: Result<nat, Error>)
      requires at <= |dAtA| <= MAX_LEN
      modifies this`services
      ensures NestedReports(r, wireType, dAtA[at..], at, bs => Decode(ServiceDesc(), NO_SERVICE, bs))
      ensures r.Ok? ==> at < r.value <= |dAtA|
      ensures r.Ok? ==>
                Values(services)
                == old(Values(services)) + [Decode(ServiceDesc(), NO_SERVICE, ReadChunk(dAtA[at..]).value.0).value]
    {
      hide ReadChunk, Decode, Values;
      var f :- StringField(dAtA, at, wireType);
      var s := new ServiceSummaryStruct();
      services := services + [s];
      var err := s.Unmarshal(f.0);
      if err.Some? {
        return Err(err.value);
      }
      ValuesAppend(old(services), s);
      return Ok(f.1);
    }

    /** The branches of the switch whose fields are numbers. */
    method UnmarshalNumber(dAtA: Bytes, iNdEx: nat, fieldNum: int, wireType: nat, at: nat)
      returns (r: Result<nat, Error>)
      requires iNdEx < |dAtA| <= MAX_LEN && 4 <= fieldNum <= 8
      requires Tagged(dAtA, iNdEx, fieldNum, wireType, at)
      modifies this
      ensures StepReports(r, Step(TraceDesc(), old(Value()), dAtA[iNdEx..]), Value(), iNdEx)
      ensures r.Ok? ==> r.value <= |dAtA|
      ensures services == old(services)
    {
      hide Step, ReadVarint, ReadUnknown, ReadChunk, Decode, Values;
      StepAfterTag(TraceDesc(), Value(), dAtA, iNdEx, fieldNum, wireType, at);
      match fieldNum {
        case 4 =>
          var f :- Fixed64Field(dAtA, at, wireType);
          minStartTimeUnixNano := f.0;
          return Ok(f.1);
        case 5 =>
          var f :- Fixed64Field(dAtA, at, wireType);
          maxEndTimeUnixNano := f.0;
          return Ok(f.1);
        case 6 =>
          var f :- Int32Field(dAtA, at, wireType);
          spanCount := f.0;
          return Ok(f.1);
        case 7 =>
          var f :- Int32Field(dAtA, at, wireType);
          errorSpanCount := f.0;
          return Ok(f.1);
        case _ =>
          var f :- Int32Field(dAtA, at, wireType);
          orphanSpanCount := f.0;
          return Ok(f.1);
      }
    }

    method UnmarshalField(dAtA: Bytes, iNdEx: nat, fieldNum: int, wireType: nat, at: nat)
      returns (r: Result<nat, Error>)
      requires iNdEx < |dAtA| <= MAX_LEN
      requires Tagged(dAtA, iNdEx, fieldNum, wireType, at)
      modifies this
      ensures StepReports(r, Step(TraceDesc(), old(Value()), dAtA[iNdEx..]), Value(), iNdEx)
      ensures r.Ok? ==> r.value <= |dAtA|
    {
      hide Step, ReadVarint, ReadUnknown, ReadChunk, Decode, Values;
      StepAfterTag(TraceDesc(), Value(), dAtA, iNdEx, fieldNum, wireType, at);
      match fieldNum {
        case 1 =>
          var f :- StringField(dAtA, at, wireType);
          traceId := f.0;
          return Ok(f.1);
        case 2 =>
          var f :- StringField(dAtA, at, wireType);
          rootServiceName := f.0;
          return Ok(f.1);
        case 3 =>
          var f :- StringField(dAtA, at, wireType);
          rootOperationName := f.0;
          return Ok(f.1);
        case 9 =>
          r := AppendService(dAtA, at, wireType);
        case _ =>
          if 4 <= fieldNum <= 8 {
            r := UnmarshalNumber(dAtA, iNdEx, fieldNum, wireType, at);
            return;
          }
          var skippy :- SkipUnknown(dAtA, iNdEx);
          unrecognized := unrecognized + dAtA[iNdEx..iNdEx + skippy];
          return Ok(iNdEx + skippy);
      }
    }

    method Unmarshal(dAtA: Bytes) returns (err: Option<Error>)
      requires |dAtA| <= MAX_LEN
      modifies this
      ensures Reports(err, Decode(TraceDesc(), old(Value()), dAtA))
      ensures err.None? ==> Decode(TraceDesc(), old(Value()), dAtA) == Ok(Value())
    {
      hide Decode, Step, ReadVarint, Values;
      ghost var k, spec := TraceDesc(), Decode(TraceDesc(), Value(), dAtA);
      var iNdEx := 0;
      assert dAtA[0..] == dAtA;
      while iNdEx < |dAtA|
        invariant iNdEx <= |dAtA|
        invariant spec == Decode(k, Value(), dAtA[iNdEx..])
        decreases |dAtA| - iNdEx
      {
        DecodeUnfolds(k, Value(), dAtA, iNdEx);
        StepWithoutTag(k, Value(), dAtA[iNdEx..]);
        var tag := ReadTag(dAtA, iNdEx);
        if tag.Err? {
          return Some(tag.error);
        }
        var next := UnmarshalField(dAtA, iNdEx, tag.value.0, tag.value.1, tag.value.2);
        if next.Err? {
          return Some(next.error);
        }
        iNdEx := next.value;
      }
      DecodeNothing(k, Value());
      assert dAtA[iNdEx..] == [];
      return None;
    }
  }

  function Traces(ts: seq<TraceSummaryStruct>): (vs: seq<Message<TraceSummary>>)
    reads ts, set i, j | 0 <= i < |ts| && 0 <= j < |ts[i].services| :: ts[i].services[j]
    ensures |vs| == |ts|
  {
    if ts == [] then [] else [ts[0].Value()] + Traces(ts[1..])
  }

  lemma {:induction false} TracesAt(ts: seq<TraceSummaryStruct>, i: nat)
    requires i < |ts|
    ensures Traces(ts)[i] == ts[i].Value()
  {
    if i > 0 {
      TracesAt(ts[1..], i - 1);
    }
  }

  lemma {:induction false} TracesAppend(ts: seq<TraceSummaryStruct>, t: TraceSummaryStruct)
    ensures Traces(ts + [t]) == Traces(ts) + [t.Value()]
  {
    if ts == [] {
      assert ts + [t] == [t];
      assert Traces([t]) == [t.Value()] + Traces([]);
    } else {
      TracesAppend(ts[1..], t);
      assert (ts + [t])[1..] == ts[1..] + [t];
    }
  }

  class SummariesResponseStruct {
    var summaries: seq<TraceSummaryStruct>
    var nextPageToken: Bytes
    var unrecognized: Bytes

    constructor ()
      ensures Value() == NO_RESPONSE
    {
      summaries, nextPageToken, unrecognized := [], [], [];
    }

    function Value(): Message<SummariesResponse>
      reads this, summaries
      reads set i, j | 0 <= i < |summaries| && 0 <= j < |summaries[i].services| :: summaries[i].services[j]
    {
      Message(SummariesResponse(Traces(summaries), nextPageToken), unrecognized)
    }

    method SizeOfSummaries() returns (n: nat)
      requires |Repeated(1, EncodeTrace, Traces(summaries))| < TWO_63
      ensures n == |Repeated(1, EncodeTrace, Traces(summaries))|
    {
      hide Varint, BitOr, BitLen, EncodeTrace, EncodeField, Repeated, Traces, Values;
      n := 0;
      ghost var vs := Traces(summaries);
      var i: nat := |summaries|;
      assert vs[i..] == [];
      NothingRepeated<Message<TraceSummary>>(1, EncodeTrace);
      while i > 0
        invariant i <= |summaries|
        invariant n == |Repeated(1, EncodeTrace, vs[i..])|
      {
        RepeatedSuffix(1, EncodeTrace, vs, i);
        TracesAt(summaries, i - 1);
        FieldLength(1, EncodeTrace(vs[i - 1]));
        var l := summaries[i - 1].Size();
        SovIsVarintLength(l);
        n := n + 1 + l + Sov(l);
        i := i - 1;
      }
      assert vs[0..] == vs;
    }

    method Size() returns (n: nat)
      requires |EncodeResponse(Value())| < TWO_63
      ensures n == |EncodeResponse(Value())|
    {
      hide OptChunk, Repeated, EncodeTrace, Traces;
      ChunkBounds(2, nextPageToken);
      n := SizeOfSummaries();
      var l := SizeOfOptChunk(2, nextPageToken);
      n := n + l;
      n := n + |unrecognized|;
    }

    /** The summaries, from the last to the first, each into what is left of the buffer. */
    method MarshalSummaries(dAtA: array<Byte>, end: nat, ghost was: Bytes, ghost rest: Bytes) returns (i: nat)
      requires |Repeated(1, EncodeTrace, Traces(summaries))| <= end <= dAtA.Length <= MAX_LEN
      requires Filled(dAtA[..], was, end, rest)
      modifies dAtA
      ensures i == end - |Repeated(1, EncodeTrace, Traces(summaries))|
      ensures Filled(dAtA[..], was, i, Repeated(1, EncodeTrace, Traces(summaries)) + rest)
    {
      hide Varint, EncodeTrace, Splice, EncodeField, Repeated, Traces, Values, Filled;
      i := end;
      ghost var vs := Traces(summaries);
      var j: nat := |summaries|;
      NothingRepeated<Message<TraceSummary>>(1, EncodeTrace);
      assert vs[j..] == [];
      assert [] + rest == rest;
      while j > 0
        invariant j <= |summaries|
        invariant i == end - |Repeated(1, EncodeTrace, vs[j..])|
        invariant Filled(dAtA[..], was, i, Repeated(1, EncodeTrace, vs[j..]) + rest)
      {
        RepeatedSuffix(1, EncodeTrace, vs, j);
        TracesAt(summaries, j - 1);
        j := j - 1;
        ghost var before, done := dAtA[..], Repeated(1, EncodeTrace, vs[j + 1..]) + rest;
        FieldLength(1, EncodeTrace(vs[j]));
        var size := summaries[j].MarshalToSizedBuffer(dAtA, i);
        FilledBySplice(before, i - size, EncodeTrace(vs[j]));
        FilledOneMore(before, was, i, done, dAtA[..], EncodeTrace(vs[j]));
        i := i - size;
        i := PutLength(dAtA, i, 1, 0x0a, size, EncodeTrace(vs[j]), was, done);
        assert EncodeField(1, Delimited, Contents(EncodeTrace(vs[j]))) + done
            == Repeated(1, EncodeTrace, vs[j..]) + rest;
      }
      assert vs[0..] == vs;
    }

    method MarshalToSizedBuffer(dAtA: array<Byte>, end: nat) returns (n: nat)
      requires |EncodeResponse(Value())| <= end <= dAtA.Length <= MAX_LEN
      modifies dAtA
      ensures n == |EncodeResponse(Value())|
      ensures dAtA[..] == Splice(old(dAtA[..]), end - n, EncodeResponse(Value()))
    {
      hide OptChunk, Splice, EncodeTrace, Traces, Repeated, Filled;
      ghost var was := dAtA[..];
      ghost var second := OptChunk(2, nextPageToken) + unrecognized;
      ChunkBounds(2, nextPageToken);
      var i := PutUnrecognized(dAtA, end, unrecognized, was);
      i := PutOptChunk(dAtA, i, 2, 0x12, nextPageToken, was, unrecognized);
      i := MarshalSummaries(dAtA, i, was, second);
      n := end - i;
      FilledIsSplice(dAtA[..], was, i, EncodeResponse(Value()));
    }

    /** Marshal: a buffer of exactly the computed size comes out completely filled. */
    method Marshal() returns (dAtA: array<Byte>)
      requires |EncodeResponse(Value())| <= MAX_LEN
      ensures fresh(dAtA) && dAtA[..] == EncodeResponse(Value())
    {
      hide EncodeResponse, Traces;
      var size := Size();
      dAtA := new Byte[size];
      var n := MarshalToSizedBuffer(dAtA, size);
    }

    method AppendSummary(dAtA: Bytes, at: nat, wireType: nat) returns (r: Result<nat, Error>)
      requires at <= |dAtA| <= MAX_LEN
      modifies this`summaries
      ensures NestedReports(r, wireType, dAtA[at..], at, bs => Decode(TraceDesc(), NO_TRACE, bs))
      ensures r.Ok? ==> at < r.value <= |dAtA|
      ensures r.Ok? ==>
                Traces(summaries)
                == old(Traces(summaries)) + [Decode(TraceDesc(), NO_TRACE, ReadChunk(dAtA[at..]).value.0).value]
    {
      hide ReadChunk, Decode, Traces, Values;
      var f :- StringField(dAtA, at, wireType);
      var t := new TraceSummaryStruct();
      summaries := summaries + [t];
      NoServices(t);
      var err := t.Unmarshal(f.0);
      if err.Some? {
        return Err(err.value);
      }
      TracesAppend(old(summaries), t);
      return Ok(f.1);
    }

    method UnmarshalField(dAtA: Bytes, iNdEx: nat, fieldNum: int, wireType: nat, at: nat)
      returns (r: Result<nat, Error>)
      requires iNdEx < |dAtA| <= MAX_LEN
      requires Tagged(dAtA, iNdEx, fieldNum, wireType, at)
      modifies this
      ensures StepReports(r, Step(ResponseDesc(), old(Value()), dAtA[iNdEx..]), Value(), iNdEx)
      ensures r.Ok? ==> r.value <= |dAtA|
    {
      hide Step, ReadVarint, ReadUnknown, ReadChunk, Decode, Traces;
      StepAfterTag(ResponseDesc(), Value(), dAtA, iNdEx, fieldNum, wireType, at);
      match fieldNum {
        case 1 =>
          r := AppendSummary(dAtA, at, wireType);
        case 2 =>
          var f :- StringField(dAtA, at, wireType);
          nextPageToken := f.0;
          return Ok(f.1);
        case _ =>
          var skippy :- SkipUnknown(dAtA, iNdEx);
          unrecognized := unrecognized + dAtA[iNdEx..iNdEx + skippy];
          return Ok(iNdEx + skippy);
      }
    }

    method Unmarshal(dAtA: Bytes) returns (err: Option<Error>)
      requires |dAtA| <= MAX_LEN
      modifies this
      ensures Reports(err, Decode(ResponseDesc(), old(Value()), dAtA))
      ensures err.None? ==> Decode(ResponseDesc(), old(Value()), dAtA) == Ok(Value())
    {
      hide Decode, Step, ReadVarint, Traces;
      ghost var k, spec := ResponseDesc(), Decode(ResponseDesc(), Value(), dAtA);
      var iNdEx := 0;
      assert dAtA[0..] == dAtA;
      while iNdEx < |dAtA|
        invariant iNdEx <= |dAtA|
        invariant spec == Decode(k, Value(), dAtA[iNdEx..])
        decreases |dAtA| - iNdEx
      {
        DecodeUnfolds(k, Value(), dAtA, iNdEx);
        StepWithoutTag(k, Value(), dAtA[iNdEx..]);
        var tag := ReadTag(dAtA, iNdEx);
        if tag.Err? {
          return Some(tag.error);
        }
        var next := UnmarshalField(dAtA, iNdEx, tag.value.0, tag.value.1, tag.value.2);
        if next.Err? {
          return Some(next.error);
        }
        iNdEx := next.value;
      }
      DecodeNothing(k, Value());
      assert dAtA[iNdEx..] == [];
      return None;
    }
  }

  lemma NoServices(t: TraceSummaryStruct)
    requires t.services == []
    ensures Values(t.services) == []
  {}
}
