# Verification model of Jaeger's stateful cores

Dafny models, with proofs, of the parts of Jaeger whose behaviour depends on state, fixed-width
arithmetic or interleaving. `dafny verify dfyconfig.toml` checks the whole project.

**The protobuf wire codec.** `Wire` and `Records` specify varints, length-delimited chunks, the
group-aware skip and the grammar of well-formed records, on the bytes still to be read and with
unbounded lengths (Protocol Buffers encoding: "Base 128 Varints", "Length-Delimited Records",
"Groups", "Last One Wins"). `Decoding` is the loop every generated `Unmarshal` shares, over a
description of one message type, with the laws that hold for all of them; `MapEntries` says how far
the decoding of a map entry reaches; `Numerals` which bytes a number is, and `Schema` which fields
the messages have on the wire; `Encoding` adds optional and repeated fields. `QueryMessages` and
`StorageMessages` instantiate it for a nested family of messages and prove round trips and merging.
`Bits`, `Cursor` and `Tail` are the imperative loops: the decoders' moving index in wrapping 64-bit
integers, and the encoders' writing from the back of an array. `QueryStructs` and `StorageStructs`
are the generated structs as classes, each method proved against the specification.

**The cache.** `Recency` is a recency-ordered association list with the properties of its runs:
freshness under a time-to-live, and conservation of what is inserted, held and reported. `Usage`
tells who stays and who leaves from the history of uses alone. `Inclusion` relates caches of two
capacities. `Lru` is the class with its list and its map, which refines the list operation by
operation.

**The trace aggregator.** `SpanAttributes` holds attribute values and the warnings attribute,
`Traces` the three-level tree, `SpanIteration` the iteration over its spans, `Yielding` what a push
iterator may do, `Grouping` what the aggregation is for, and `Aggregator` the code with its
closure's state. A consumer is an arbitrary function of everything it has been given.

**Leader election.** `Election` is a state machine of any number of participants, the lock and the
clock. A participant's loop and its Close interleave; a call of the lock is one step at the lock and
another where the answer is stored, and a failed call may have been granted all the same. `Renewal`
adds deadlines: how long calls and refresh intervals may take for leases to be renewed. `Closing` is
about the flag over whole runs and about Close giving the lease back.

**Transformations.** `Utf8` and `Sanitizing` specify the standard sanitizers and prove the
post-state and idempotence of their chain; `CodePoints` relates validity to code points and
`Repairs` spells out what a resource and a span come out as; `Sanitizer` is the code, over traces
that may be read-only. `Filters` is the filter builder with the attribute walk that reads its trees,
under an arbitrary interpretation of leaves and operators. `LineEndings` is the lint script.

## Where the code and its promises part

Each of these has its exact condition, for all inputs, and a concrete input at which it shows.

- A larger cache can answer worse than a smaller one once `CompareAndSwap` is used with nil as the
  expected value: `Inclusion.RunsRelateIff`, `Inclusion.CasBreaksInclusion`.
- `CompareAndSwap` is said to return the element in the cache after it. At capacity zero it returns
  one that is not: `Recency.CasReportsWhatIsHeldIff`, `Recency.CasAtCapacityZero`.
- Two participants can be flagged leader at once, after a lease has run out and before its holder
  has noticed: `Election.SecondLeaderIff`, `Election.TwoLeadersAfterExpiry`; and
  `Renewal.OneLeaderIffRenewalFits` says for which timings they never are.
- The duration sanitizer does not repair a span that starts at the largest int64 timestamp, since
  adding a nanosecond wraps: `Sanitizing.DurationFixed`,
  `Sanitizing.LastInstantIsNotFixed`.
- A service name that is a string of invalid UTF-8 leaves the chain as bytes, because the check for
  a service name runs before the UTF-8 pass: `Sanitizing.ServiceNamePostState`,
  `Sanitizing.InvalidServiceNameIsLost`.
- `Or` of nothing but empty calls is nil, which filters nothing, where the disjunction of nothing
  would filter everything: `Filters.CombinedMeaningWithEmpties`,
  `Filters.OrOfNothingIsNoFilter`.
- Regrouping `And` or `Or` does not always build the same tree: `Filters.Associativity`,
  `Filters.NestedGroupDoesNotRegroup`. Flat groups do: `Filters.FlatGroupsRegroup`.
- The key and the value of a map entry may reach past the entry's own end, up to the end of the
  buffer; only a skipped record is held to the entry: `MapEntries.OwnBytesSufficeIff`,
  `MapEntries.KeyReachesPastEntry`.

Besides, the comment on `putWithMutexHold` says that the inserted value is returned. The code returns
the value that was there before, and so does the model.

## Model

| member | source | states |
|---|---|---|
| `Wire.VarintRoundTrip` | internal/proto/api_v3/query_service.pb.go:3195-3205 | every uint64, written as a varint and followed by anything, is read back with exactly the bytes written |
| `Wire.Uint64VarintLength` | internal/proto/api_v3/query_service.pb.go:3195-3205 | a uint64 takes between one and ten bytes, so the shift limit of 64 never rejects what the encoder wrote |
| `Wire.ReadVarintExtends` | internal/proto/api_v3/query_service.pb.go:4535-4550 | what a varint read yields does not depend on the bytes after it |
| `Wire.Int32Survives` | internal/proto/api_v3/query_service.pb.go:5772-5790 | an int32, negative ones included, comes back from its sign-extended 64-bit varint after truncation to 32 bits |
| `Wire.ChunkRoundTrip` | internal/proto/api_v3/query_service.pb.go:2962-2968 | a length-delimited chunk is read back whole, with its exact extent |
| `Wire.ReadChunkExtends` | internal/proto/api_v3/query_service.pb.go:5740-5771 | a chunk that was read is read the same when more bytes follow |
| `Wire.LittleRoundTrip` | internal/proto/api_v3/query_service.pb.go:2943-2954 | the eight bytes of a fixed64 field give the number back |
| `Wire.SkipExtends` | internal/proto/api_v3/query_service.pb.go:6621-6698 | a record that can be skipped, nested groups included, is skipped the same whatever follows |
| `Wire.SkipPrefix` | internal/proto/api_v3/query_service.pb.go:6621-6698 | the skip looks at nothing beyond what it passes over |
| `Numerals.VarintAt` | internal/proto/api_v3/query_service.pb.go:3195-3205 | the byte at position i holds the bits 7i to 7i+6 of the number; all bytes but the last have the top bit set; and there is no byte more than needed |
| `Numerals.ReadVarintIff` | internal/proto/api_v3/query_service.pb.go:4535-4550 | a varint is read exactly when one of the first ten bytes has its top bit clear, takes the bytes up to that one and spells their seven-bit groups, the lowest first; otherwise it is too long, with ten bytes or more at hand, or there is not enough of it |
| `Numerals.LittleAt` | internal/proto/api_v3/query_service.pb.go:2943-2954 | the byte at position i of a fixed64 field is the i-th from the bottom: the lowest comes first |
| `Numerals.LittleInverse` | internal/proto/api_v3/query_service.pb.go:5957-5966 | writing what was read gives the bytes back |
| `Numerals.FromLittleAt` | internal/proto/api_v3/query_service.pb.go:5957-5966 | reading takes the byte at position i for 256 to the power i |
| `Numerals.ConversionsKeepLowBits` | internal/proto/api_v3/query_service.pb.go:4551-4552 | each conversion to a Go integer type agrees with the number modulo two to the width, which with its range determines it |
| `Numerals.SkipRefuses` | internal/proto/api_v3/query_service.pb.go:6674-6689 | the errors of the skip: a wire type that does not exist, the end of a group not begun, a length that does not fit an int |
| `Numerals.ChunkRefuses` | internal/proto/api_v3/query_service.pb.go:5759-5769 | the errors of a length-delimited field: a length that does not fit an int, or is more than there is |
| `Records.TagRoundTrip` | internal/proto/api_v3/query_service.pb.go:4551-4558 | a tag yields its field number and wire type through the 64-bit varint and the int32 conversion, for every legal field number |
| `Records.SkipsMembers` | internal/proto/api_v3/query_service.pb.go:6678-6684 | the members of a group, groups among them, are passed over without changing the depth |
| `Records.SkipsRecord` | internal/proto/api_v3/query_service.pb.go:6621-6698 | a record of any kind at any group depth is passed over whole: skipping it and the rest is its length more than skipping the rest |
| `Records.SkipConsumesRecord` | internal/proto/api_v3/query_service.pb.go:6621-6698 | at depth zero the skip consumes exactly one well-formed record, of any wire type and any nesting of groups, and none of what follows |
| `Decoding.Step` | internal/proto/api_v3/query_service.pb.go:4534-4626 | every successful iteration of a decoding loop consumes at least one byte and never more than remain |
| `Decoding.DecodeConcat` | internal/proto/api_v3/query_service.pb.go:4531-4632 | concatenation law for every message type: if a decodes into m, then decoding a followed by b is decoding b on top of the result, errors of b included |
| `Decoding.PayloadRoundTrip` | internal/proto-gen/storage_v1/storage.pb.go:4234-4360 | each kind of payload, map entries included, is read back as written |
| `Decoding.EntryLoopRoundTrip` | internal/proto-gen/storage_v1/storage.pb.go:4268-4358 | a map entry of key then value is read back, whatever follows the entry in the buffer |
| `Decoding.DecodesField` | internal/proto/api_v3/query_service.pb.go:5832-6089 | decoding a field the encoder wrote stores its payload and goes on with the rest |
| `Decoding.DecodesForeign` | internal/proto/api_v3/query_service.pb.go:6068-6081 | bytes made of records with unknown field numbers end up in the unrecognized bytes verbatim and in order |
| `Decoding.UnrecognizedStaysForeign` | internal/proto/api_v3/query_service.pb.go:6068-6081 | whatever is decoded, the unrecognized bytes consist of whole records with unknown field numbers, so they can be encoded and decoded again |
| `MapEntries.OwnBytesSufficeIff` | internal/proto-gen/storage_v1/storage.pb.go:4268-4358 | a map entry that decodes would decode from its own bytes alone, and to the same, if and only if every record in it ends within it |
| `MapEntries.ReadEntryNeedsNoMoreIff` | internal/proto-gen/storage_v1/storage.pb.go:4234-4360 | the same of the whole field, its length and its bytes |
| `MapEntries.KeyReachesPastEntry` | internal/proto-gen/storage_v1/storage.pb.go:4286-4314 | a concrete entry of two bytes whose key is taken from the two bytes behind it |
| `MapEntries.EntryIgnoresWireType` | internal/proto-gen/storage_v1/storage.pb.go:4285-4343 | inside an entry the key and the value are read whatever the wire type of their tags |
| `MapEntries.OtherRecordsStayInside` | internal/proto-gen/storage_v1/storage.pb.go:4344-4357 | any other well-formed record in an entry is passed over whole if it ends within the entry, and is an error if not |
| `MapEntries.MissingPartsAreEmpty` | internal/proto-gen/storage_v1/storage.pb.go:4266-4267 | an entry without a key or a value, or without both, has empty ones |
| `MapEntries.EntryOnePrefix` | internal/proto-gen/storage_v1/storage.pb.go:4268-4358 | a record that ends within the entry is read the same from the entry alone |
| `Encoding.DecodesRepeated` | internal/proto/api_v3/query_service.pb.go:2914-2927 | a repeated field is decoded back element by element, in order |
| `Encoding.DecodeKeeps` | internal/proto/api_v3/query_service.pb.go:5832-6089 | an invariant that every field store keeps holds of every decoded message |
| `Encoding.RecordsAreForeign` | internal/proto/api_v3/query_service.pb.go:6068-6081 | any sequence of well-formed records with unknown field numbers is admissible as unrecognized bytes |
| `Schema.PaginationOnTheWire` | internal/proto/api_v3/query_service.pb.go:2382-2404 | the encoding field by field under the literal tag bytes, in order |
| `Schema.ServiceOnTheWire` | internal/proto/api_v3/query_service.pb.go:2861-2888 | the same |
| `Schema.TraceOnTheWire` | internal/proto/api_v3/query_service.pb.go:2905-2977 | the same, for its nine fields of four shapes |
| `Schema.ResponseOnTheWire` | internal/proto/api_v3/query_service.pb.go:3033-3064 | the same |
| `Schema.OperationsOnTheWire` | internal/proto-gen/storage_v1/storage.pb.go:2337-2370 | the same, with the nested operations |
| `Schema.TagsOnTheWire` | internal/proto-gen/storage_v1/storage.pb.go:2433-2451 | a map entry under the literal tag bytes, the key in front of the value |
| `Schema.QueryOnTheWire` | internal/proto-gen/storage_v1/storage.pb.go:2387-2467 | the encoding field by field under the literal tag bytes |
| `Schema.RequestOnTheWire` | internal/proto-gen/storage_v1/storage.pb.go:2484-2506 | the same |
| `Schema.KnownFields` | internal/proto/api_v3/query_service.pb.go:5832-6089 | for each message of the family exactly which field numbers are known, with which wire types |
| `Schema.StepRefuses` | internal/proto/api_v3/query_service.pb.go:4551-4563 | the errors of a decoding loop for any message: the end of a group, field number zero, a known field with the wrong wire type, in this order |
| `QueryMessages.PaginationRoundTrip` | internal/proto/api_v3/query_service.pb.go:4531-4632 | round trip of Pagination |
| `QueryMessages.ServiceRoundTrip` | internal/proto/api_v3/query_service.pb.go:5711-5831 | round trip of ServiceSummary, negative counts included |
| `QueryMessages.TraceRoundTrip` | internal/proto/api_v3/query_service.pb.go:5832-6089 | round trip of TraceSummary with its nested services and fixed64 times |
| `QueryMessages.ResponseRoundTrip` | internal/proto/api_v3/query_service.pb.go:6177-6293 | round trip of the whole three-level tree, unrecognized bytes at every level |
| `QueryMessages.DecodesPagination` | internal/proto/api_v3/query_service.pb.go:4531-4632 | decoding an encoded Pagination into a populated one: fields that were written win, the others stay |
| `QueryMessages.DecodesService` | internal/proto/api_v3/query_service.pb.go:5711-5831 | decoding an encoded ServiceSummary into a populated one merges them |
| `QueryMessages.DecodesTrace` | internal/proto/api_v3/query_service.pb.go:5832-6089 | decoding an encoded TraceSummary into a populated one: scalars overwritten unless zero, repeated services and unrecognized bytes appended |
| `QueryMessages.DecodesResponse` | internal/proto/api_v3/query_service.pb.go:6177-6293 | the same for the response |
| `QueryMessages.DecodedResponseOk` | internal/proto/api_v3/query_service.pb.go:6177-6293 | whatever bytes are decoded, if short enough for a buffer, the message satisfies the hypotheses of the round trip |
| `QueryMessages.ReencodingIsStable` | internal/proto/api_v3/query_service.pb.go:3033-3064 | decode, encode, decode gives what the first decode gave, for every byte string that decodes |
| `QueryMessages.ConcatenatedEncodingsMerge` | internal/proto/api_v3/query_service.pb.go:6177-6293 | the encodings of two messages one after the other decode to the second merged into the first |
| `StorageMessages.OperationRoundTrip` | internal/proto-gen/storage_v1/storage.pb.go:3909-4023 | round trip of Operation |
| `StorageMessages.OperationsRoundTrip` | internal/proto-gen/storage_v1/storage.pb.go:4024-4140 | round trip of GetOperationsResponse: empty names in the repeated string field survive, nested operations keep their order |
| `StorageMessages.DecodesTags` | internal/proto-gen/storage_v1/storage.pb.go:4234-4360 | map entries in any order decode to the map, later entries overwriting |
| `StorageMessages.DecodesQuery` | internal/proto-gen/storage_v1/storage.pb.go:4141-4533 | decoding an encoded query, its map visited in any order, into a populated one merges them |
| `StorageMessages.QueryRoundTrip` | internal/proto-gen/storage_v1/storage.pb.go:4141-4533 | round trip for every order in which the map may be visited, given a time and a duration codec that round-trip |
| `StorageMessages.RequestRoundTrip` | internal/proto-gen/storage_v1/storage.pb.go:4534-4620 | round trip of the request, with and without its nested query |
| `StorageMessages.DecodesNestedQuery` | internal/proto-gen/storage_v1/storage.pb.go:4534-4620 | a nested message field decodes into the nested message already there, or into a fresh one |
| `StorageMessages.SplitNestedMessageMerges` | internal/proto-gen/storage_v1/storage.pb.go:4534-4620 | a nested message split over two fields decodes like one field that holds both halves |
| `Bits.AccumulatesBits` | internal/proto/api_v3/query_service.pb.go:6634-6636 | shifting seven bits into place and or-ing them in, in an unsigned integer of any width, computes the varint modulo the width: bits past the top are lost |
| `Cursor.ReadBits` | internal/proto/api_v3/query_service.pb.go:4537-4550 | the innermost loop reads the varint that the specification reads, truncated to its width, or fails with the same error, and never indexes out of range |
| `Cursor.ReadSlice` | internal/proto/api_v3/query_service.pb.go:5740-5771 | the length loop with its two sign checks under 64-bit wrap-around finds the same chunk as the specification on unbounded lengths; only the name of one error may differ |
| `Cursor.SkipStep` | internal/proto/api_v3/query_service.pb.go:6625-6692 | one round of the skip on a 64-bit index gives the index and depth the specification gives, wrapped; errors are the same |
| `Cursor.SkipField` | internal/proto/api_v3/query_service.pb.go:6621-6698 | for every byte string the skip terminates in range and agrees with the specification |
| `Cursor.SkipUnknown` | internal/proto/api_v3/query_service.pb.go:6068-6081 | the two checks after the skip and the wrap-around of iNdEx + skippy leave exactly the records that fit |
| `Cursor.ReadFixed64` | internal/proto/api_v3/query_service.pb.go:5957-5966 | eight bytes are read when there are eight, in range |
| `Cursor.ReadEntryAt` | internal/proto-gen/storage_v1/storage.pb.go:4268-4358 | the map-entry loop agrees with the specification, for every byte string |
| `Cursor.ReadTag` | internal/proto/api_v3/query_service.pb.go:4551-4558 | field number and wire type as the loop computes them in int32 and int |
| `Cursor.ReadInt32` | internal/proto/api_v3/query_service.pb.go:5776-5790 | the int32 accumulator, which drops the bits above 32, gives the truncated varint |
| `Cursor.StringField` | internal/proto/api_v3/query_service.pb.go:5740-5771 | a string field, its wire type checked |
| `Cursor.Int32Field` | internal/proto/api_v3/query_service.pb.go:5772-5790 | an int32 field, its wire type checked |
| `Cursor.Fixed64Field` | internal/proto/api_v3/query_service.pb.go:5957-5966 | a fixed64 field, its wire type checked |
| `Tail.SovIsVarintLength` | internal/proto/api_v3/query_service.pb.go:3682-3684 | for every uint64 the size calculator, from the position of the highest set bit, equals the number of bytes the varint encoder emits |
| `Tail.EncodeVarint` | internal/proto/api_v3/query_service.pb.go:3195-3205 | the forward-writing loop, started at the size predicted, fills exactly the bytes before offset with the varint and touches nothing else |
| `Tail.MarshalTracesData` | internal/jptrace/traces.go:46-53 | the data end up in the tail of the buffer, the rest is untouched, the count is returned: what a parent message relies on; an error of the library is passed on before anything is written |
| `Tail.PutChunk` | internal/proto/api_v3/query_service.pb.go:2962-2968 | writing contents, length and tag back to front prepends that field to what is already in the tail |
| `Tail.PutLength` | internal/proto/api_v3/query_service.pb.go:2916-2925 | a nested message written first gets the length and tag of what was written |
| `Tail.PutUnrecognized` | internal/proto/api_v3/query_service.pb.go:2910-2913 | the unrecognized bytes go to the very end |
| `QueryStructs.ServiceSummaryStruct.Size` | internal/proto/api_v3/query_service.pb.go:3519-3539 | the size equals the length of the encoding |
| `QueryStructs.ServiceSummaryStruct.MarshalToSizedBuffer` | internal/proto/api_v3/query_service.pb.go:2861-2888 | writes exactly the encoding into the tail, leaves the prefix untouched, returns the count |
| `QueryStructs.ServiceSummaryStruct.Unmarshal` | internal/proto/api_v3/query_service.pb.go:5711-5831 | on every byte string ends in range, and leaves what the specification decodes, or an error when it has one |
| `QueryStructs.TraceSummaryStruct.Size` | internal/proto/api_v3/query_service.pb.go:3541-3584 | the size equals the length of the encoding, nested services included |
| `QueryStructs.TraceSummaryStruct.MarshalServices` | internal/proto/api_v3/query_service.pb.go:2914-2927 | nested messages written last to first, each before its length and tag, come out in order |
| `QueryStructs.TraceSummaryStruct.MarshalToSizedBuffer` | internal/proto/api_v3/query_service.pb.go:2905-2977 | writes exactly the last Size() bytes with the encoding and leaves the prefix untouched |
| `QueryStructs.TraceSummaryStruct.UnmarshalField` | internal/proto/api_v3/query_service.pb.go:5832-6089 | one iteration does to the fields what the specified step does, and reports the index it ends at |
| `QueryStructs.TraceSummaryStruct.Unmarshal` | internal/proto/api_v3/query_service.pb.go:5832-6089 | total decoding: every byte string, no index out of range, the outcome of the specification |
| `QueryStructs.SummariesResponseStruct.Size` | internal/proto/api_v3/query_service.pb.go:3602-3622 | the size equals the length of the encoding of the whole tree |
| `QueryStructs.SummariesResponseStruct.MarshalToSizedBuffer` | internal/proto/api_v3/query_service.pb.go:3033-3064 | writes exactly the encoding of the whole tree into the tail |
| `QueryStructs.SummariesResponseStruct.Marshal` | internal/proto/api_v3/query_service.pb.go:3018-3026 | the buffer allocated by Size is filled completely with the encoding |
| `QueryStructs.SummariesResponseStruct.Unmarshal` | internal/proto/api_v3/query_service.pb.go:6177-6293 | total decoding of the whole tree |
| `StorageStructs.QueryStruct.PutTags` | internal/proto-gen/storage_v1/storage.pb.go:2433-2451 | whatever order the map is visited in, each entry comes out exactly once, in the tail and nowhere else |
| `StorageStructs.QueryStruct.SizeOfTags` | internal/proto-gen/storage_v1/storage.pb.go:2936-2943 | the size of the map field whatever the order |
| `StorageStructs.QueryStruct.Size` | internal/proto-gen/storage_v1/storage.pb.go:2922-2959 | the size equals the length of the encoding under every order |
| `StorageStructs.QueryStruct.MarshalToSizedBuffer` | internal/proto-gen/storage_v1/storage.pb.go:2387-2467 | writes exactly the encoding under some order of the map, of the predicted size; or fails, exactly when the library refuses a time or duration, with the first such error from the back and nothing changed behind the buffer it was given |
| `StorageStructs.QueryStruct.InsertTag` | internal/proto-gen/storage_v1/storage.pb.go:4234-4360 | a map entry is inserted into the map in place, a missing key or value being the empty string |
| `StorageStructs.QueryStruct.Unmarshal` | internal/proto-gen/storage_v1/storage.pb.go:4141-4533 | total decoding with the library codecs as parameters |
| `StorageStructs.EveryOrderHasTheSameLength` | internal/proto-gen/storage_v1/storage.pb.go:2922-2959 | every order of visiting the map encodes to the same length, which is why Size can be computed separately |
| `StorageStructs.RequestStruct.MarshalToSizedBuffer` | internal/proto-gen/storage_v1/storage.pb.go:2484-2506 | the optional nested query in the tail, with its tag and length; or the error of the nested query |
| `StorageStructs.RequestStruct.MergeNested` | internal/proto-gen/storage_v1/storage.pb.go:4534-4620 | decoding goes on in the nested object already there, in place; a fresh one is made only when there is none |
| `StorageStructs.RequestStruct.Unmarshal` | internal/proto-gen/storage_v1/storage.pb.go:4534-4620 | total decoding of the request |
| `Recency.RunKeeps` | internal/cache/lru.go:43-160 | after every run the keys are distinct and no more than maxSize are held |
| `Recency.BindingsAreLastWritten` | internal/cache/lru.go:100-120 | every binding is the last Put or successful CompareAndSwap of its key, and its deadline is that of the write: reads extend nothing |
| `Recency.GetIsFresh` | internal/cache/lru.go:43-65 | a value read at time t was the last written for its key, at time t - ttl or later, on every run |
| `Recency.ApplyConserves` | internal/cache/lru.go:100-160 | one operation: the keys inserted and those held before are those held after and those reported |
| `Recency.InsertionsAreAccountedFor` | internal/cache/lru.go:43-160 | over every run, for each key, insertions as a new key equal callback calls plus whether it is still held: every departure is reported exactly once |
| `Recency.ReportsBoundValue` | internal/cache/lru.go:53-61 | what the callback is told is a key with the value bound to it, or, at capacity zero, the pair just put |
| `Recency.CasReportsWhatIsHeldIff` | internal/cache/lru.go:75-96 | the item CompareAndSwap reports to be in the cache is the one held afterwards, if and only if it has not inserted a non-nil value at capacity zero |
| `Recency.CasAtCapacityZero` | internal/cache/lru.go:75-96 | a concrete swap that reports an item the cache does not hold |
| `Usage.OrderIsLastUse` | internal/cache/lru.go:43-130 | after every run the items stand in the order of the last use of their keys, the latest first, where a use is a read with success, a Put or a swap that replaced |
| `Usage.LeavesIff` | internal/cache/lru.go:43-160 | a held key leaves exactly if it is deleted, or everything is, or it is read after the time-to-live of its last write, or a new key comes into a full cache and no other key was used as long ago |
| `Usage.EntersIff` | internal/cache/lru.go:67-130 | a key that is not held comes in exactly by a Put, or a swap that expects nil, unless the capacity is zero |
| `Usage.Answers` | internal/cache/lru.go:43-73 | Get answers with the last written value of a held key up to the end of its time-to-live and with nil otherwise; Put answers with the value there was |
| `Usage.SwapAnswers` | internal/cache/lru.go:77-96 | a swap replaces exactly when the last written value of a held key, or nil for a key not held, equals the expected value; a refusal answers with what is there and changes nothing |
| `Inclusion.StepRelates` | internal/cache/lru.go:43-160 | one operation on a smaller and a larger cache keeps the smaller one a subsequence of the larger, with or without ttl, if no CompareAndSwap is harmful |
| `Inclusion.SubConsIff` | internal/cache/lru.go:112-127 | a new item in front of a subsequence leaves a subsequence exactly when the larger list has that item, with the rest behind it |
| `Inclusion.LargerCacheNeverMissesMore` | internal/cache/lru.go:43-73 | for capacities m <= n, after every run of Get, Put, Delete and Clear the m-cache is the n-cache with some items left out, in the same order, and every hit in it is the same hit in the larger one; for any ttl |
| `Inclusion.HarmfulCasIff` | internal/cache/lru.go:77-96 | a swap that only the smaller cache carries out, as an insertion, leaves it a subsequence of the larger one if and only if the larger one already holds the very item written, deadline included, with all that the smaller one keeps behind it |
| `Inclusion.StepRelatesIff` | internal/cache/lru.go:43-160 | any operation keeps the inclusion if and only if it is admissible, a condition on the two states before it |
| `Inclusion.RunsRelateIff` | internal/cache/lru.go:43-160 | over any run, CompareAndSwap included, the smaller cache stays a subsequence of the larger one all along if and only if each operation is admissible where it happens |
| `Inclusion.CasBreaksInclusion` | internal/cache/lru.go:77-96 | a concrete run of three operations in which a larger cache answers differently |
| `Lru.LRU.constructor` | internal/cache/lru.go:25-40 | an empty cache whose list and map agree |
| `Lru.LRU.Get` | internal/cache/lru.go:43-65 | list and map still agree; contents, result and callback are those of the recency list, an expired entry being reported and removed |
| `Lru.LRU.Put` | internal/cache/lru.go:68-73 | contents, previous value and callback are those of the recency list |
| `Lru.LRU.CompareAndSwap` | internal/cache/lru.go:77-96 | replaces exactly when the stored value, nil for none, is the expected one; otherwise neither values nor order change |
| `Lru.LRU.PutWithMutexHeld` | internal/cache/lru.go:100-130 | both branches refine the recency list |
| `Lru.LRU.UpdateEntry` | internal/cache/lru.go:101-110 | the entry object moves to the front with the new value, its deadline moved only when there is a ttl |
| `Lru.LRU.InsertEntry` | internal/cache/lru.go:112-129 | the new entry is at the front, what exceeds the capacity has left from the back |
| `Lru.LRU.EvictOldest` | internal/cache/lru.go:121-127 | the loop stops with exactly maxSize entries, having reported the rest from the back |
| `Lru.LRU.Delete` | internal/cache/lru.go:133-145 | contents and callback are those of the recency list |
| `Lru.LRU.Clear` | internal/cache/lru.go:148-160 | nothing is left and every entry has been reported once, in the unspecified order of the map |
| `Lru.LRU.Size` | internal/cache/lru.go:163-168 | the size of the map is the number of bindings |
| `Lru.SameEntriesCount` | internal/cache/lru.go:163-168 | a list and a map that agree have the same size |
| `SpanIteration.SpanIter` | internal/jptrace/spaniter.go:21-41 | the consumer is given the spans with their positions up to the first it refuses, and is not called again |
| `SpanIteration.VisitsFlatten` | internal/jptrace/spaniter.go:21-41 | every span is visited once, in order, each with the indices and the containers it sits in |
| `SpanIteration.VisitAt` | internal/jptrace/spaniter.go:21-41 | the span at any indices i, j, k is visited, right after all spans in front of it, with its indices and containers; and there are as many visits as spans |
| `SpanIteration.GetTraceID` | internal/jptrace/spaniter.go:43-48 | the first span's ID, in whichever resource and scope it is, or the empty ID |
| `SpanAttributes.AddWarnings` | internal/jptrace/warning.go:11-30 | the attribute becomes a list with the new warnings at its end; a plain value there before is kept as its first item |
| `SpanAttributes.GetWarnings` | internal/jptrace/warning.go:32-48 | reads the list, or the single value, back |
| `SpanAttributes.WarningsAccumulate` | internal/jptrace/warning.go:11-47 | reading after adding gives what was read before followed by the warnings added, whatever the attribute was, and every other attribute is unchanged |
| `SpanAttributes.WarningsRead` | internal/jptrace/warning.go:32-48 | what a reader is told of each shape of the attribute: nothing, the strings of a list, a plain value as it prints, bytes in base 64 |
| `SpanAttributes.Base64RoundTrip` | internal/jptrace/warning.go:16-23 | a bytes value printed into the list can be read back, four characters for three bytes (RFC 4648) |
| `SpanAttributes.Base64Vectors` | internal/jptrace/warning.go:16-23 | vectors of RFC 4648, section 10 |
| `Yielding.DeliveredIsDetermined` | internal/jptrace/aggregator.go:34-82 | what a consumer receives is determined by what there is to deliver and by its own answers |
| `Traces.CutFlattens` | internal/jptrace/aggregator.go:107-147 | the partial copy has exactly the first limit spans, each with the resource and scope it had |
| `Traces.CutLeavesNoneEmpty` | internal/jptrace/aggregator.go:107-147 | the partial copy has no resource without scopes and no scope without spans |
| `Traces.MarkFirstFlattens` | internal/jptrace/aggregator.go:159-167 | marking changes the first span and nothing else |
| `Grouping.GroupsGrow` | internal/jptrace/aggregator.go:39-75 | what arrives later extends the last group or opens new ones; finished groups do not change |
| `Grouping.TruncationWarningOfSeven` | internal/jptrace/aggregator.go:159-167 | the wording of the warning, at a concrete limit |
| `SpanAttributes.DecimalSpells` | internal/jptrace/aggregator.go:161-164 | a number in a text is spelt by its decimal digits |
| `Grouping.LimitIsCut` | internal/jptrace/aggregator.go:90-105 | the incremental limit, chunk by chunk with its counter and flag, gives the reference cut of the whole group, marked once |
| `Grouping.LimitRefinesTruncation` | internal/jptrace/aggregator.go:86-147 | for every group and every limit k > 0 the result has the first k of all (resource, scope, span) triples, with one warning on the first span exactly when spans were dropped |
| `Grouping.CutGroupShape` | internal/jptrace/aggregator.go:107-147 | a cut group is whole chunks followed by a partial copy of one chunk that has no empty containers: none are introduced |
| `Grouping.RunsPartition` | internal/jptrace/aggregator.go:34-83 | the runs of a span sequence are non-empty, uniform in trace ID, differ from their neighbours, and concatenate to the sequence |
| `Grouping.RunsUnique` | internal/jptrace/aggregator.go:34-83 | there is no other such partition |
| `Grouping.GroupsAreRuns` | internal/jptrace/aggregator.go:34-83 | when every chunk holds one trace ID, the groups flatten to the maximal runs of all the spans, so splitting a run into chunks differently, or adding empty chunks, changes nothing |
| `Aggregator.MergeTraces` | internal/jptrace/aggregator.go:151-157 | all resources of the source are appended in order |
| `Aggregator.CopySpansUpToLimit` | internal/jptrace/aggregator.go:107-147 | the three loops with their lazily created containers append the cut of the source |
| `Aggregator.CopyResource` | internal/jptrace/aggregator.go:110-146 | the resource is added only if a span of it is, and the counter advances by what was copied |
| `Aggregator.CopyScope` | internal/jptrace/aggregator.go:117-145 | the scope is added only if a span of it is |
| `Aggregator.MergeTracesWithLimit` | internal/jptrace/aggregator.go:90-105 | all three branches agree with the specified merge, with the count and the truncation it reports |
| `Aggregator.MarkTraceTruncated` | internal/jptrace/aggregator.go:159-167 | the first span in iteration order, past empty resources and scopes, gets the warning |
| `Aggregator.Aggregation.OnTrace` | internal/jptrace/aggregator.go:39-75 | one chunk keeps the correspondence between the closure's five variables and the groups seen so far, or stops with the refused output as the last |
| `Aggregator.Aggregation.OnBatch` | internal/jptrace/aggregator.go:34-77 | a batch, chunk by chunk, to the end or to the refusal |
| `Aggregator.Aggregation.OnError` | internal/jptrace/aggregator.go:35-38 | an upstream error is passed on once and the pending trace is kept for afterwards |
| `Aggregator.Aggregation.Finish` | internal/jptrace/aggregator.go:78-82 | the pending trace is emitted only if nothing was refused |
| `Aggregator.Aggregation.Run` | internal/jptrace/aggregator.go:26-84 | yield protocol, for every stream and every consumer: it receives the groups' results, and an error once before the pending trace, in order up to the first it refuses, and is never called after that |
| `Aggregator.ErrorComesBetween` | internal/jptrace/aggregator.go:34-82 | an error comes after what is final whatever else arrives and before the pending trace, and otherwise changes nothing |
| `Aggregator.LimitedStreamIsCutStream` | internal/jptrace/aggregator.go:26-84 | on every stream the limited output equals the unlimited one, output by output, each cut to its first spans and marked exactly when cut |
| `Aggregator.UnlimitedStreamIsRuns` | internal/jptrace/aggregator.go:34-83 | without limit and error the outputs flatten to the maximal runs of the input's spans: conservation, grouping, and independence of chunking |
| `Election.NextKeeps` | internal/leaderelection/leader_election.go:59-132 | every step of every participant, the lock or the clock keeps the invariant: an unexpired lease is the one in the lock, the flag rises only after a grant, and it stays down once Close has cleared it |
| `Election.RunKeeps` | internal/leaderelection/leader_election.go:59-132 | the invariant holds along every interleaving |
| `Election.OneLease` | internal/distributedlock/interface.go:11-20 | two unexpired leases are the same |
| `Election.TwoLeadersNeedAnExpiredLease` | internal/leaderelection/leader_election.go:96-132 | in every interleaving of any number of participants two are flagged at once only if the most recently granted lease of one has expired |
| `Election.TwoLeadersAfterExpiry` | internal/leaderelection/leader_election.go:118-132 | a concrete run in which an expired lease gives two flags, so the condition is needed |
| `Election.AttemptLeads` | internal/leaderelection/leader_election.go:101-132 | a participant that can lead becomes flagged by its own steps, wherever its loop is, with no time passing and nobody else changed |
| `Election.SecondLeaderIff` | internal/leaderelection/leader_election.go:101-132 | from every reachable state with one leader: another participant can come to be flagged at once by its own steps if and only if it is on its way already or its loop runs and the lock would grant; and the lock would grant only if the first lease has expired |
| `Election.RenewedInTimeMeansOneLeader` | internal/leaderelection/leader_election.go:101-132 | if the clock never passes the end of a lease someone relies on, at most one participant is flagged at every point of the run |
| `Renewal.AdvanceKeeps` | internal/leaderelection/leader_election.go:101-132 | along punctual runs the next step of a participant that relies on its lease is due within two calls and one refresh interval of the last grant |
| `Renewal.TimedRunsInTime` | internal/leaderelection/leader_election.go:101-132 | if two calls of the lock and the interval between them fit into each lease, punctual runs never pass the end of a lease relied on |
| `Renewal.LateRenewalGivesTwoLeaders` | internal/leaderelection/leader_election.go:101-132 | whenever they do not fit, for any participant, an error-free punctual run of eight steps flags two leaders |
| `Renewal.OneLeaderIffRenewalFits` | internal/leaderelection/leader_election.go:101-132 | for any number of participants from two up, with lease lengths, refresh intervals and latencies of their own: all error-free punctual runs have at most one leader if and only if two calls and one interval fit into every lease |
| `Election.ClosedIsFinal` | internal/leaderelection/leader_election.go:66-94 | once Close is over no interleaving raises the flag again, for the loop has exited before the flag was cleared |
| `Closing.FlagIsLastAnswer` | internal/leaderelection/leader_election.go:118-136 | after every run the flag is the last error-free answer stored, until Close clears it: a leader that is denied steps down, an error changes nothing |
| `Closing.ForfeitsIffItWasLeader` | internal/leaderelection/leader_election.go:66-94 | in every interleaving, a participant whose loop has been joined ends Close by forfeiting its lease if and only if it was flagged when joined, and without otherwise |
| `Closing.ForfeitMakesRoom` | internal/leaderelection/leader_election.go:76-90 | when that releases its lease the lock is free, and any other participant whose loop runs becomes leader by its own steps with no time passing; a forfeit that does not leaves the lock as it was |
| `Closing.CloseCanEnd` | internal/leaderelection/leader_election.go:66-94 | from wherever a begun Close is, the participant gets to its end by its own steps, once a call under way is answered |
| `Closing.LoopRunsUntilClosed` | internal/leaderelection/leader_election.go:103-116 | the loop does not end before Close is called |
| `Election.ForfeitSparesOthers` | internal/leaderelection/leader_election.go:76-90 | a closing participant never takes another's unexpired lease out of the lock |
| `Sanitizing.DurationFixed` | internal/jptrace/sanitizer/negative_duration_santizer.go:73-90 | after the adjustment start precedes end, exactly unless the start is the largest int64 timestamp, where adding one wraps |
| `Sanitizing.LastInstantIsNotFixed` | internal/jptrace/sanitizer/negative_duration_santizer.go:73-90 | a concrete span that is still not in order after the adjustment |
| `Sanitizing.FixDurationChanges` | internal/jptrace/sanitizer/negative_duration_santizer.go:67-71 | the span changes exactly when the need-check says so |
| `CodePoints.ValidIffWritten` | internal/jptrace/sanitizer/utf8.go:95-108 | bytes count as valid if and only if they are what some sequence of code points, surrogates excluded, is written as (RFC 3629) |
| `CodePoints.WrittenOnce` | internal/jptrace/sanitizer/utf8.go:95-108 | no two sequences of code points are written as the same bytes |
| `Repairs.TagKeysDiffer` | internal/jptrace/sanitizer/utf8.go:128-143 | different numbers give different keys |
| `Repairs.EachInvalidKeyIsReplaced` | internal/jptrace/sanitizer/utf8.go:110-144 | there are as many numbered keys as invalid keys, all of them present, and no invalid key is left |
| `Repairs.FirstTagKey` | internal/jptrace/sanitizer/utf8.go:128-143 | the numbers start at one |
| `Repairs.ServiceNameOutcome` | internal/jptrace/sanitizer/sanitizer.go:18-39 | the service name a resource comes out with: each placeholder for what was wrong, the name itself if it was a valid string, its bytes if it was not UTF-8 |
| `Repairs.AttributeOutcome` | internal/jptrace/sanitizer/utf8.go:110-144 | any other attribute with a valid key comes out as it was, a string that is not UTF-8 as its bytes |
| `Repairs.SpanNameOutcome` | internal/jptrace/sanitizer/sanitizer.go:18-39 | the name a span comes out with, the placeholders spelt out; an invalid name is kept as bytes in an attribute |
| `Repairs.DurationOutcome` | internal/jptrace/sanitizer/negative_duration_santizer.go:73-90 | a span that does not start before it ends comes out one nanosecond long, wrapping at the last instant, with one warning more and nothing else changed; any other as it was |
| `Repairs.AsTimeIs` | internal/jptrace/sanitizer/negative_duration_santizer.go:67-71 | timestamps past the largest int64 are read as negative |
| `Repairs.KeysAre` | internal/jptrace/sanitizer/emptyservicename.go:28-29 | the literal attribute keys of the service name and the warnings |
| `Sanitizing.AttributesComeOutClean` | internal/jptrace/sanitizer/utf8.go:110-144 | every key and every top-level string value is valid UTF-8 afterwards, in whatever order keys are replaced |
| `Sanitizing.AttributesChangeIff` | internal/jptrace/sanitizer/utf8.go:95-108 | attributes change exactly when the need-check says so |
| `Sanitizing.Utf8ChangesIff` | internal/jptrace/sanitizer/utf8.go:30-108 | the full UTF-8 pass leaves a trace unchanged if and only if the need-check is false, and its result never needs another |
| `Sanitizing.ServiceNamesChangeIff` | internal/jptrace/sanitizer/emptyservicename.go:25-74 | the fix pass leaves the traces unchanged if and only if the guard is false |
| `Sanitizing.MapSpansChangesIff` | internal/jptrace/sanitizer/emptyspanname.go:20-58 | a pass over single spans leaves the trace unchanged if and only if no span needs it |
| `Sanitizing.SpanPostState` | internal/jptrace/sanitizer/sanitizer.go:18-39 | after the chain a span has a non-empty valid UTF-8 name and clean attributes, and starts before it ends exactly unless its start is the last instant |
| `Sanitizing.ServiceNamePostState` | internal/jptrace/sanitizer/sanitizer.go:18-39 | after the chain service.name is a non-empty string if and only if it did not come in as a string of invalid UTF-8 |
| `Sanitizing.InvalidServiceNameIsLost` | internal/jptrace/sanitizer/sanitizer.go:18-39 | a concrete resource, its service name one invalid byte, that comes out without a string service name |
| `Sanitizing.ChainPostState` | internal/jptrace/sanitizer/sanitizer.go:18-39 | post-state of the standard chain for every resource, scope and span of every trace; nothing is added or dropped |
| `Sanitizing.ChainLeavesNothingToDo` | internal/jptrace/sanitizer/sanitizer.go:18-39 | no need-check of any of the four sanitizers fires on the chain's output |
| `Sanitizing.ChainIsIdempotent` | internal/jptrace/sanitizer/sanitizer.go:27-39 | sanitizing again changes nothing, for traces without invalid service names and without spans that start at the last instant |
| `Sanitizer.SanitizeEmptyServiceName` | internal/jptrace/sanitizer/emptyservicename.go:25-74 | guard loop and fix loop give the specified traces; read-only or unneeding input is untouched, and returned itself when nothing is needed |
| `Sanitizer.AnySpan` | internal/jptrace/sanitizer/emptyspanname.go:47-58 | the guard loops find a span in need if and only if there is one |
| `Sanitizer.EachSpan` | internal/jptrace/sanitizer/emptyspanname.go:34-42 | the rewriting loops change every span once and nothing around it |
| `Sanitizer.SanitizeEmptySpanName` | internal/jptrace/sanitizer/emptyspanname.go:20-45 | every empty name is replaced; read-only input untouched |
| `Sanitizer.SanitizeNegativeDuration` | internal/jptrace/sanitizer/negative_duration_santizer.go:29-52 | every span in need is adjusted and warned; read-only input untouched |
| `Sanitizer.AttributesNeedUTF8Sanitization` | internal/jptrace/sanitizer/utf8.go:95-108 | true exactly when a key or a string value is invalid, whatever the order |
| `Sanitizer.TracesNeedUTF8Sanitization` | internal/jptrace/sanitizer/utf8.go:74-93 | true exactly when some resource, scope or span is not clean |
| `Sanitizer.SanitizeAttributes` | internal/jptrace/sanitizer/utf8.go:110-144 | invalid values become bytes, each invalid key gives way to a numbered one, in whatever order the invalid keys are visited |
| `Sanitizer.ReplaceKeys` | internal/jptrace/sanitizer/utf8.go:128-143 | the numbered keys are in and the invalid ones out, all others kept unless a numbered key overwrote them |
| `Sanitizer.SanitizeUTF8` | internal/jptrace/sanitizer/utf8.go:30-72 | the nested passes give a sanitized trace; read-only or clean input untouched |
| `Sanitizer.Sanitize` | internal/jptrace/sanitizer/sanitizer.go:13-39 | the four in their order; read-only input is never modified |
| `Filters.Combine` | internal/expression/predicate.go:291-307 | the loop builds the specified tree |
| `Filters.CombinedMeaning` | internal/expression/predicate.go:112-123 | And evaluates as the conjunction and Or as the disjunction of its arguments under every interpretation of leaves and other operators |
| `Filters.CombinedMeaningWithEmpties` | internal/expression/predicate.go:291-307 | with empty calls and nil predicates admitted, the law fails exactly for Or of nothing but empty calls, which becomes no filter |
| `Filters.CombinedReferences` | components/extension/queryinterceptorexample/extension.go:109-128 | the result reads an attribute if and only if one of the arguments does, for all arguments |
| `Filters.CombinedKeepsLeaves` | internal/expression/predicate.go:291-307 | the leaves below calls of the operator are those of the arguments, in order |
| `Filters.CombinedIsFlat` | internal/expression/predicate.go:291-307 | flat arguments give a flat tree made of their leaves in order |
| `Filters.LonePredicate` | internal/expression/predicate.go:291-307 | a lone predicate comes back unchanged |
| `Filters.Associativity` | internal/expression/predicate.go:291-307 | joining a group first and the result with others builds the same tree as joining all at once, if and only if the group has parts and is not a single nested call of the operator; where the others contribute nothing, if and only if it is not a single nested call that would come apart again |
| `Filters.FlatGroupsRegroup` | internal/expression/predicate.go:112-123 | flat predicates, at least one and none an empty call, can be grouped in any way |
| `Filters.NestedGroupDoesNotRegroup` | internal/expression/predicate.go:291-307 | a concrete group, one call nested in another of the same operator, that does not regroup |
| `Filters.OrOfNothingIsNoFilter` | internal/expression/predicate.go:291-307 | under a reading with the usual truth values, Or of nothing holds where the disjunction of nothing does not |
| `Filters.ReferencesAttribute` | components/extension/queryinterceptorexample/extension.go:109-128 | the early-exit recursion finds the key if and only if it is somewhere in the tree; a nil filter has none |
| `Filters.UnreadAttributesDoNotMatter` | components/extension/queryinterceptorexample/extension.go:109-128 | a filter's meaning does not depend on attributes the walk does not find |
| `Filters.ReferencesIffItMatters` | components/extension/queryinterceptorexample/extension.go:109-128 | the walk is exact: it finds an attribute if and only if some interpretation makes the filter depend on it |
| `Filters.AdmitFilter` | components/extension/queryinterceptorexample/extension.go:91-104 | refused if and only if the caller is not privileged and a denied attribute is read, naming one that is |
| `LineEndings.RStripIs` | scripts/lint/check-line-endings.py:53-65 | stripping takes off exactly the longest end made of the given characters |
| `LineEndings.RemoveCRIs` | scripts/lint/check-line-endings.py:64 | removing carriage returns goes byte by byte and drops nothing else |
| `LineEndings.TrailingSpaceIff` | scripts/lint/check-line-endings.py:53-55 | the lint reports trailing white space if and only if some space or tab is followed by carriage returns only up to a newline or the end |
| `LineEndings.LintCleanIff` | scripts/lint/check-line-endings.py:51-59 | the three checks together, byte by byte: no carriage return, no blank in front of a newline, a newline at the end |
| `LineEndings.OutcomeIff` | scripts/lint/check-line-endings.py:33-79 | the script is silent exactly about unreadable, empty, binary and clean files, and each complaint stands for what it says |
| `LineEndings.FixedTextIsClean` | scripts/lint/check-line-endings.py:62-67 | the fixed text passes all three checks |
| `LineEndings.CleanTextStays` | scripts/lint/check-line-endings.py:51-70 | a clean text is not changed |
| `LineEndings.FixChangesIff` | scripts/lint/check-line-endings.py:51-70 | the fix changes a text if and only if the lint complains about it |
| `LineEndings.FixIsIdempotent` | scripts/lint/check-line-endings.py:62-67 | fixing twice is fixing once |
| `LineEndings.FixKeepsVisible` | scripts/lint/check-line-endings.py:62-67 | only spaces, tabs, carriage returns and newlines are ever added or removed |
| `LineEndings.FixWorksLineByLine` | scripts/lint/check-line-endings.py:64-67 | each line of the result is the line of the original without carriage returns and trailing blanks; at most one empty line is added |
| `LineEndings.SplitJoin` | scripts/lint/check-line-endings.py:65 | joining lines and splitting again gives the lines |
| `LineEndings.FixModeSatisfiesLintMode` | scripts/lint/check-line-endings.py:33-79 | fix mode acts on exactly the files lint mode complains about, always rewrites them, and lint is silent on them afterwards because they are clean |

## Left out

Codec

- Contents of the receiver after a decoding error: only the error is specified.
- Other generated messages of the two packages: the same scheme with other field numbers.
- `Pagination`, `Operation` and `GetOperationsResponse` as structs in place: their encodings and their round trips are proved on values only; the loops they are made of are those of the classes.
- `FindTraceSummariesRequest` and the query parameters of the public API: their filter and attribute fields go through codecs outside these files; the query and the request of the storage API stand for them.
- Nil elements of a repeated message field, on which the encoder panics.
- The difference between nil and empty slices and maps.
- The library's time and duration codecs: parameters, which may refuse to write a value and are then taken to give it size zero; assumed to read back what they write where a round trip is claimed (`StorageMessages.Faithful`).
- Contents of the buffer after an encoding error, below the bytes the parent message had already written.
- Buffers longer than 2^63 - 9 bytes, which cannot be allocated.
- Cursor.ReadSlice: where a length wraps, the code reports an invalid length and the specification on unbounded lengths runs out of bytes; which of the two errors is reported is left open (`Cursor.Agrees`), that there is one is not.
- Message reflection, descriptors, the JSON codec and the OTLP marshaler behind `TracesData`.

Cache

- Negative `maxSize`, with which the eviction loop would run into an empty list.
- The mutex and callbacks that call back into the cache: each method is one atomic step.
- Expirations that fall on the zero instant, which the code takes for no expiration.
- Lru.LRU.Clear: the order of the callback's calls is not stated, since it is that of a Go map.

Aggregator

- Sharing of memory between a chunk and the trace made from it: trees are values, so appending to the current trace does not show in the chunk it started as.
- Chunks that mix trace IDs, for the grouping by spans: `Grouping.GroupsAreRuns` needs one ID a chunk; the limit and the yield protocol do not.
- A producer that goes on after having been told to stop.

Leader election

- `Start` after `Close` and more than one `Start`.
- Real timers and logging: the ticker may fire at any time in `Election`, and by a deadline in `Renewal`, which takes a Close of a leader to be as prompt as its next refresh.
- Renewals that fail, in `Renewal`: a leader whose call returns an error keeps its flag and gets no lease, which `Election` covers.
- Several callers of `Close`: the one that is let through is modelled, the others wait for it.

Sanitizer

- Sanitizer.SanitizeAttributes: the bytes stored under a replaced key are left open, because they depend on the library's aliasing of values.
- Sanitizer.ReplaceKeys: the same bytes are left open here.
- Strings inside lists and maps of attribute values, which the code does not look at either.
- Event and link attributes, which the code does not sanitize.
- The text of the duration warning: a parameter.

Filters and line endings

- Constants, lists and comparisons: the constructors that wrap one node each, and how Go values become constants.
- Resolving the caller's role, redaction of results and the rest of the interceptor.
- Listing tracked files, reading and writing them, and the order of the script's messages.

Everything else

- Servers, storage backends, command lines, configuration, metrics, tenancy and the other scripts: input and output, or thin wrappers.
