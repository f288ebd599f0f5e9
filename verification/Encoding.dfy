/**
 What a generated encoder writes for each shape of field, and what decoding it does: a field
 left at its zero value writes nothing and so changes nothing.
 */
module Encoding {
  import opened Results
  import opened Wire
  import opened Records
  import opened Decoding

  function OptChunk(num: nat, bs: Bytes): Bytes {
    if bs == [] then [] else EncodeField(num, Delimited, Contents(bs))
  }

  function OptScalar(num: nat, v: Uint64): Bytes {
    if v == 0 then [] else EncodeField(num, Scalar, Number(v))
  }

  function OptFixed(num: nat, v: Uint64): Bytes {
    if v == 0 then [] else EncodeField(num, Fixed, Number(v))
  }

  /** A repeated field: every element is written, in order, empty ones too. */
  function Repeated<M>(num: nat, encode: M -> Bytes, ms: seq<M>): Bytes {
    if ms == [] then []
    else EncodeField(num, Delimited, Contents(encode(ms[0]))) + Repeated(num, encode, ms[1..])
  }

  lemma DecodesOptChunk<F>(k: Desc<F>, m: Message<F>, num: nat, bs: Bytes, rest: Bytes, f: F)
    requires LegalNumber(num) && k.kind(num) == Delimited && |bs| < TWO_63
    requires if bs == [] then f == m.fields else k.store(m.fields, num, Contents(bs)) == Ok(f)
    ensures Decode(k, m, OptChunk(num, bs) + rest) == Decode(k, m.(fields := f), rest)
  {
    hide Decode, EncodeField;
    if bs == [] {
      assert OptChunk(num, bs) + rest == rest;
    } else {
      DecodesField(k, m, num, Contents(bs), rest);
    }
  }

  lemma DecodesOptNumber<F>(k: Desc<F>, m: Message<F>, num: nat, v: Uint64, rest: Bytes, f: F)
    requires LegalNumber(num) && (k.kind(num) == Scalar || k.kind(num) == Fixed)
    requires if v == 0 then f == m.fields else k.store(m.fields, num, Number(v)) == Ok(f)
    ensures Decode(k, m, (if k.kind(num) == Scalar then OptScalar(num, v) else OptFixed(num, v)) + rest)
         == Decode(k, m.(fields := f), rest)
  {
    hide Decode, EncodeField;
    if v == 0 {
      assert OptScalar(num, v) + rest == rest;
      assert OptFixed(num, v) + rest == rest;
    } else {
      DecodesField(k, m, num, Number(v), rest);
    }
  }

  /** Storing the encodings of `ms` one after another takes `f` to `f'`. */
  ghost predicate StoresAll<F, M>(k: Desc<F>, num: nat, encode: M -> Bytes, f: F, ms: seq<M>, f': F) {
    if ms == [] then f' == f
    else
      var r := k.store(f, num, Contents(encode(ms[0])));
      r.Ok? && StoresAll(k, num, encode, r.value, ms[1..], f')
  }

  lemma {:induction false} DecodesRepeated<F, M>(
      k: Desc<F>, m: Message<F>, num: nat, encode: M -> Bytes, ms: seq<M>, rest: Bytes, f: F)
    requires LegalNumber(num) && k.kind(num) == Delimited
    requires |Repeated(num, encode, ms)| < TWO_63
    requires StoresAll(k, num, encode, m.fields, ms, f)
    ensures Decode(k, m, Repeated(num, encode, ms) + rest) == Decode(k, m.(fields := f), rest)
    decreases |ms|
  {
    hide Decode, Varint;
    if ms == [] {
      assert Repeated(num, encode, ms) + rest == rest;
    } else {
      var p := Contents(encode(ms[0]));
      var tail := Repeated(num, encode, ms[1..]);
      assert Repeated(num, encode, ms) + rest == EncodeField(num, Delimited, p) + (tail + rest);
      DecodesField(k, m, num, p, tail + rest);
      DecodesRepeated(k, m.(fields := k.store(m.fields, num, p).value), num, encode, ms[1..], rest, f);
    }
  }

  /** Every element of a repeated field takes part of its length. */
  lemma {:induction false} RepeatedBounds<M>(num: nat, encode: M -> Bytes, ms: seq<M>, i: nat)
    requires i < |ms|
    ensures |encode(ms[i])| < |Repeated(num, encode, ms)|
    decreases |ms|
  {
    hide Varint;
    if i > 0 {
      RepeatedBounds(num, encode, ms[1..], i - 1);
    }
  }

  /** A property of the declared fields that storing keeps is kept by decoding. */
  lemma {:induction false} DecodeKeeps<F(!new)>(k: Desc<F>, inv: F -> bool, m: Message<F>, d: Bytes)
    requires forall f, n, p :: inv(f) && k.store(f, n, p).Ok? ==> inv(k.store(f, n, p).value)
    requires inv(m.fields) && Decode(k, m, d).Ok?
    ensures inv(Decode(k, m, d).value.fields)
    decreases |d|
  {
    hide ReadVarint, ReadUnknown, ReadPayload;
    if d != [] {
      var (m', n) := Step(k, m, d).value;
      DecodeKeeps(k, inv, m', d[n..]);
    }
  }

  /** A list of well-formed records of unknown numbers is foreign, groups included. */
  lemma {:induction false} RecordsAreForeign<F>(k: Desc<F>, rs: seq<Record>)
    requires forall r <- rs :: Legal(r) && k.kind(r.num) == Unknown
    ensures Foreign(k, EncodeAll(rs))
    decreases |rs|
  {
    hide Skip, ReadVarint, Encode, Foreign, Legal;
    if rs == [] {
      assert Foreign(k, []) by { ForeignNothing(k); }
    } else {
      RecordIsForeign(k, rs[0]);
      RecordsAreForeign(k, rs[1..]);
      ForeignConcat(k, Encode(rs[0]), EncodeAll(rs[1..]));
    }
  }

  lemma ForeignNothing<F>(k: Desc<F>)
    ensures Foreign(k, [])
  {}

  lemma RecordIsForeign<F>(k: Desc<F>, r: Record)
    requires Legal(r) && k.kind(r.num) == Unknown
    ensures Foreign(k, Encode(r))
  {
    hide Skip, ReadVarint, EncodeAll;
    var bs := Encode(r);
    SkipConsumesRecord(r, []);
    assert bs + [] == bs;
    var wireType := match r
      case VarintRecord(_, _) => 0
      case Fixed64Record(_, _) => 1
      case ChunkRecord(_, _) => 2
      case Group(_, _) => 3
      case Fixed32Record(_, _) => 5;
    var tag := Tag(r.num, wireType);
    assert bs == tag + bs[|tag|..];
    TagRoundTrip(r.num, wireType, bs[|tag|..]);
    assert bs[|bs|..] == [];
  }
}
