/**
 Attribute maps, with unique keys and no order, and the warnings kept in one of them.
 */
module SpanAttributes {
  import opened Wire
  import opened Utf8

  /** An attribute value.  Numbers, flags and maps are all `Other`, told apart by how they print. */
  datatype Value =
    | Str(s: Bytes)
    | Raw(bytes: Bytes)
    | Slice(items: seq<Value>)
    | Other(text: Bytes)

  type Attributes = map<Bytes, Value>

  function WarningsKey(): Bytes { Text("@jaeger@warnings") }

  function Decimal(n: nat): string {
    if n < 10 then [(n as char) + '0'] else Decimal(n / 10) + Decimal(n % 10)
  }

  /** What the digits spell. */
  function Spelt(ds: string): (n: int) {
    if ds == [] then 0 else 10 * Spelt(ds[..|ds| - 1]) + (ds[|ds| - 1] as int - '0' as int)
  }

  /** A number is spelt by digits, without a leading zero unless it is zero itself. */
  lemma {:induction false} DecimalSpells(n: nat)
    ensures
      var ds := Decimal(n);
      Spelt(ds) == n && ds != [] && (forall i | 0 <= i < |ds| :: '0' <= ds[i] <= '9') && (ds[0] == '0' ==> n == 0)
  {
    if n < 10 {
      assert Decimal(n)[..0] == [];
    } else {
      DecimalSpells(n / 10);
      DecimalSpells(n % 10);
      var ds := Decimal(n);
      assert ds[..|ds| - 1] == Decimal(n / 10) && ds[|ds| - 1] == Decimal(n % 10)[0];
    }
  }

  // ---------- Values as text ----------

  function Base64Digit(x: nat): Byte
    requires x < 64
  {
    if x < 26 then 65 + x
    else if x < 52 then 97 + (x - 26)
    else if x < 62 then 48 + (x - 52)
    else if x == 62 then 43
    else 47
  }

  function OctetAt(bs: Bytes, i: nat): (n: nat)
    ensures n < 256
  {
    if i < |bs| then bs[i] else 0
  }

  function Triple(bs: Bytes): (n: nat)
    ensures n < 16777216
  {
    65536 * OctetAt(bs, 0) + 256 * OctetAt(bs, 1) + OctetAt(bs, 2)
  }

  /** Section 4 of RFC 4648. */
  function Base64(bs: Bytes): Bytes {
    if bs == [] then []
    else
      var n := Triple(bs);
      var d := [Base64Digit(n / 262144), Base64Digit(n / 4096 % 64), Base64Digit(n / 64 % 64), Base64Digit(n % 64)];
      if |bs| == 1 then d[..2] + [61, 61] else if |bs| == 2 then d[..3] + [61] else d + Base64(bs[3..])
  }

  function Base64Value(b: Byte): nat {
    if 65 <= b <= 90 then b - 65
    else if 97 <= b <= 122 then b - 97 + 26
    else if 48 <= b <= 57 then b - 48 + 52
    else if b == 43 then 62
    else 63
  }

  /** The number four characters spell, padding standing for ones. */
  function FromQuad(cs: Bytes): (n: nat)
    requires |cs| >= 4
  {
    262144 * Base64Value(cs[0]) + 4096 * Base64Value(cs[1]) + 64 * Base64Value(cs[2]) + Base64Value(cs[3])
  }

  /** Reading it back: six bits a character, what the padding stands for left out. */
  function FromBase64(cs: Bytes): seq<int> {
    if |cs| < 4 then []
    else
      var n := FromQuad(cs);
      if cs[2] == 61 then [n / 65536]
      else if cs[3] == 61 then [n / 65536, n / 256 % 256]
      else [n / 65536, n / 256 % 256, n % 256] + FromBase64(cs[4..])
  }

  lemma Base64DigitValue(x: nat)
    requires x < 64
    ensures Base64Value(Base64Digit(x)) == x && Base64Digit(x) != 61
  {}

  lemma QuadSpells(n: nat, cs: Bytes)
    requires n < 16777216 && |cs| >= 4
    requires cs[0] == Base64Digit(n / 262144) && cs[1] == Base64Digit(n / 4096 % 64)
    requires cs[2] == 61 || cs[2] == Base64Digit(n / 64 % 64)
    requires cs[3] == 61 || cs[3] == Base64Digit(n % 64)
    ensures FromQuad(cs) / 4096 == n / 4096
    ensures cs[2] != 61 ==> FromQuad(cs) / 64 == n / 64
    ensures cs[2] != 61 && cs[3] != 61 ==> FromQuad(cs) == n
  {
    hide Base64Digit;
    Base64DigitValue(n / 262144);
    Base64DigitValue(n / 4096 % 64);
    Base64DigitValue(n / 64 % 64);
    Base64DigitValue(n % 64);
    assert n / 64 / 64 == n / 4096 && n / 4096 / 64 == n / 262144;
  }

  lemma Octets(bs: Bytes)
    requires bs != []
    ensures
      var n := Triple(bs);
      n < 16777216 && n / 65536 == bs[0] && n / 4096 / 16 == n / 65536 && n / 64 / 4 == n / 256
      && (|bs| > 1 ==> n / 256 % 256 == bs[1]) && (|bs| > 2 ==> n % 256 == bs[2])
  {
    ThreeOctets(OctetAt(bs, 0), OctetAt(bs, 1), OctetAt(bs, 2));
    NestedDivisions(Triple(bs));
  }

  lemma ThreeOctets(a: nat, b: nat, c: nat)
    requires a < 256 && b < 256 && c < 256
    ensures
      var n := 65536 * a + 256 * b + c;
      n / 65536 == a && n / 256 % 256 == b && n % 256 == c
  {
    assert (65536 * a + 256 * b + c) / 256 == 256 * a + b;
  }

  lemma NestedDivisions(n: nat)
    ensures n / 4096 / 16 == n / 65536 && n / 64 / 4 == n / 256
  {}

  lemma DecodedOctets(bs: Bytes, cs: Bytes)
    requires bs != [] && |cs| >= 4 && FromQuad(cs) / 4096 == Triple(bs) / 4096
    requires |bs| > 1 ==> FromQuad(cs) / 64 == Triple(bs) / 64
    requires |bs| > 2 ==> FromQuad(cs) == Triple(bs)
    ensures FromQuad(cs) / 65536 == bs[0]
    ensures |bs| > 1 ==> FromQuad(cs) / 256 % 256 == bs[1]
    ensures |bs| > 2 ==> FromQuad(cs) % 256 == bs[2]
  {
    hide FromQuad, Triple;
    Octets(bs);
    NestedDivisions(FromQuad(cs));
  }

  /** Characters give the bytes back, four for every three, the last ones padded. */
  lemma {:induction false} Base64RoundTrip(bs: Bytes)
    ensures |Base64(bs)| == 4 * ((|bs| + 2) / 3)
    ensures FromBase64(Base64(bs)) == bs
  {
    hide Base64Digit, FromQuad, Triple;
    if bs != [] {
      hide Base64;
      var cs := Base64(bs);
      Base64Quad(bs);
      QuadSpells(Triple(bs), cs);
      DecodedOctets(bs, cs);
      hide *;
      if |bs| > 2 {
        Base64RoundTrip(bs[3..]);
        FromBase64More(bs, cs);
      } else {
        FromBase64Last(bs, cs);
      }
    }
  }

  lemma FromBase64More(bs: Bytes, cs: Bytes)
    requires |bs| > 2 && |cs| >= 4 && cs[2] != 61 && cs[3] != 61 && FromBase64(cs[4..]) == bs[3..]
    requires FromQuad(cs) / 65536 == bs[0] && FromQuad(cs) / 256 % 256 == bs[1] && FromQuad(cs) % 256 == bs[2]
    ensures FromBase64(cs) == bs
  {
    hide FromQuad;
    assert bs == [bs[0], bs[1], bs[2]] + bs[3..];
  }

  lemma FromBase64Last(bs: Bytes, cs: Bytes)
    requires 1 <= |bs| <= 2 && |cs| == 4 && (cs[2] == 61 <==> |bs| == 1) && (|bs| == 2 ==> cs[3] == 61)
    requires FromQuad(cs) / 65536 == bs[0] && (|bs| == 2 ==> FromQuad(cs) / 256 % 256 == bs[1])
    ensures FromBase64(cs) == bs
  {
    hide FromQuad;
  }

  lemma Base64Quad(bs: Bytes)
    requires bs != []
    ensures
      var n, cs := Triple(bs), Base64(bs);
      n < 16777216 && |cs| >= 4
      && cs[0] == Base64Digit(n / 262144) && cs[1] == Base64Digit(n / 4096 % 64)
      && cs[2] == (if |bs| > 1 then Base64Digit(n / 64 % 64) else 61)
      && cs[3] == (if |bs| > 2 then Base64Digit(n % 64) else 61)
      && (cs[2] == 61 <==> |bs| == 1) && (|bs| > 1 ==> (cs[3] == 61 <==> |bs| == 2))
      && (|bs| > 2 ==> cs[4..] == Base64(bs[3..])) && (|bs| <= 2 ==> |cs| == 4)
  {
    hide Base64Digit, Triple;
    var n := Triple(bs);
    Octets(bs);
    Base64DigitValue(n / 64 % 64);
    Base64DigitValue(n % 64);
  }

  /** How a value that is not a list prints. */
  function AsString(v: Value): Bytes
    requires !v.Slice?
  {
    match v
    case Str(s) => s
    case Raw(bytes) => Base64(bytes)
    case Other(text) => text
  }

  /** Vectors of section 10 of RFC 4648, as bytes: "f" is "Zg==", "fo" is "Zm8=", "foobar" is "Zm9vYmFy"; and
      "++//" has the last two characters of the alphabet. */
  lemma Base64Vectors()
    ensures Base64([102]) == [90, 103, 61, 61] && Base64([102, 111]) == [90, 109, 56, 61]
    ensures Base64([102, 111, 111] + [98, 97, 114]) == [90, 109, 57, 118] + [89, 109, 70, 121]
    ensures Base64([0xfb, 0xef, 0xff]) == [43, 43, 47, 47]
  {
    Base64Short();
    hide Base64, Base64Digit;
    Base64OfThree(102, 111, 111, [98, 97, 114]);
    Base64OfThree(98, 97, 114, []);
    Base64OfThree(0xfb, 0xef, 0xff, []);
    Quad(6713199, 25, 38, 61, 47);
    Quad(6447474, 24, 38, 5, 50);
    Quad(16510975, 62, 62, 63, 63);
    DigitsAre();
    assert [98, 97, 114] + [] == [98, 97, 114] && [0xfb, 0xef, 0xff] + [] == [0xfb, 0xef, 0xff];
  }

  lemma Quad(n: nat, a: nat, b: nat, c: nat, d: nat)
    requires n == 262144 * a + 4096 * b + 64 * c + d && a < 64 && b < 64 && c < 64 && d < 64
    ensures n / 262144 == a && n / 4096 % 64 == b && n / 64 % 64 == c && n % 64 == d
  {
    assert n / 64 == 4096 * a + 64 * b + c;
    assert n / 4096 == 64 * a + b;
  }

  lemma DigitsAre()
    ensures Base64Digit(25) == 90 && Base64Digit(38) == 109 && Base64Digit(61) == 57 && Base64Digit(47) == 118
    ensures Base64Digit(24) == 89 && Base64Digit(5) == 70 && Base64Digit(50) == 121
    ensures Base64Digit(62) == 43 && Base64Digit(63) == 47
  {}

  lemma Base64Short()
    ensures Base64([]) == [] && Base64([102]) == [90, 103, 61, 61] && Base64([102, 111]) == [90, 109, 56, 61]
  {
    assert Triple([102]) == 6684672 && Triple([102, 111]) == 6713088;
  }

  lemma Base64OfThree(a: Byte, b: Byte, c: Byte, rest: Bytes)
    ensures
      var n: nat := 65536 * (a as int) + 256 * (b as int) + (c as int);
      Base64([a, b, c] + rest) ==
        [Base64Digit(n / 262144), Base64Digit(n / 4096 % 64), Base64Digit(n / 64 % 64), Base64Digit(n % 64)]
        + Base64(rest)
  {
    assert ([a, b, c] + rest)[3..] == rest;
    assert Triple([a, b, c] + rest) == 65536 * (a as int) + 256 * (b as int) + (c as int);
  }

  // ---------- Warnings ----------

  function Strings(ws: seq<Bytes>): (vs: seq<Value>)
    ensures |vs| == |ws|
  {
    seq(|ws|, i requires 0 <= i < |ws| => Str(ws[i]))
  }

  /** The warnings attribute once the warnings are added: a list, whatever it was. */
  function WithWarnings(a: Attributes, warnings: seq<Bytes>): Attributes {
    var present :=
      if WarningsKey() !in a then []
      else if a[WarningsKey()].Slice? then a[WarningsKey()].items
      else [Str(AsString(a[WarningsKey()]))];
    a[WarningsKey() := Slice(present + Strings(warnings))]
  }

  /** What a reader is told: an item that is not a string reads as the empty one. */
  function WarningsOf(a: Attributes): seq<Bytes> {
    if WarningsKey() !in a then []
    else if a[WarningsKey()].Slice? then
      var items := a[WarningsKey()].items;
      seq(|items|, i requires 0 <= i < |items| => if items[i].Str? then items[i].s else [])
    else [AsString(a[WarningsKey()])]
  }

  method AddWarnings(attributes: Attributes, warnings: seq<Bytes>) returns (out: Attributes)
    ensures out == WithWarnings(attributes, warnings)
  {
    hide Base64, Text;
    var key := WarningsKey();
    out := attributes;
    if key !in out {
      out := out[key := Slice([])];
    } else if !out[key].Slice? {
      out := out[key := Slice([Str(AsString(out[key]))])];
    }
    ghost var present := out[key].items;
    assert Strings(warnings[..0]) == [] && present + [] == present;
    for i := 0 to |warnings|
      invariant key in out && out[key].Slice? && out[key].items == present + Strings(warnings[..i])
      invariant out == attributes[key := out[key]]
    {
      out := out[key := Slice(out[key].items + [Str(warnings[i])])];
      assert Strings(warnings[..i + 1]) == Strings(warnings[..i]) + [Str(warnings[i])];
    }
    assert warnings[..|warnings|] == warnings;
  }

  method GetWarnings(attributes: Attributes) returns (warnings: seq<Bytes>)
    ensures warnings == WarningsOf(attributes)
  {
    hide Base64, Text;
    var key := WarningsKey();
    if key !in attributes {
      return [];
    }
    if !attributes[key].Slice? {
      return [AsString(attributes[key])];
    }
    var items := attributes[key].items;
    warnings := [];
    for i := 0 to |items|
      invariant |warnings| == i
      invariant forall j | 0 <= j < i :: warnings[j] == if items[j].Str? then items[j].s else []
    {
      warnings := warnings + [if items[i].Str? then items[i].s else []];
    }
  }

  /** Added warnings are read back after those that were there, even when a backend has turned the
      list into something else, and no other attribute changes. */
  lemma WarningsAccumulate(a: Attributes, warnings: seq<Bytes>)
    ensures WarningsOf(WithWarnings(a, warnings)) == WarningsOf(a) + warnings
    ensures WithWarnings(a, warnings) - {WarningsKey()} == a - {WarningsKey()}
  {
    hide Base64, Text;
    var b := WithWarnings(a, warnings);
    var before, after := WarningsOf(a), WarningsOf(b);
    assert |after| == |before| + |warnings|;
    assert forall i | 0 <= i < |before| :: after[i] == before[i];
    assert forall i | 0 <= i < |warnings| :: after[|before| + i] == warnings[i];
  }

  /** One warning is always a change. */
  lemma WarningShows(a: Attributes, warning: Bytes)
    ensures WithWarnings(a, [warning]) != a
  {
    hide WithWarnings, WarningsOf;
    WarningsAccumulate(a, [warning]);
  }

  /** The strings among the items, and the empty one for any other. */
  function StringsOf(items: seq<Value>): seq<Bytes> {
    if items == [] then []
    else StringsOf(items[..|items| - 1]) + [match items[|items| - 1] case Str(s) => s case _ => []]
  }

  lemma {:induction false} StringsOfAt(items: seq<Value>)
    ensures StringsOf(items) == seq(|items|, i requires 0 <= i < |items| => if items[i].Str? then items[i].s else [])
  {
    if items != [] {
      StringsOfAt(items[..|items| - 1]);
    }
  }

  /** What a reader is told of each shape of the attribute: nothing, the strings of a list, a string as it
      is, bytes in base 64, and anything else as it prints. */
  lemma WarningsRead(a: Attributes)
    ensures WarningsKey() !in a ==> WarningsOf(a) == []
    ensures
      WarningsKey() in a ==>
        var v, ws := a[WarningsKey()], WarningsOf(a);
        if v.Slice? then ws == StringsOf(v.items)
        else if v.Raw? then |ws| == 1 && FromBase64(ws[0]) == v.bytes
        else ws == [if v.Str? then v.s else v.text]
  {
    hide Base64, FromBase64, Text;
    if WarningsKey() in a && a[WarningsKey()].Raw? {
      Base64RoundTrip(a[WarningsKey()].bytes);
    } else if WarningsKey() in a && a[WarningsKey()].Slice? {
      StringsOfAt(a[WarningsKey()].items);
    }
  }
}
