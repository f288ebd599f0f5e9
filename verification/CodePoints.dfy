/**
 UTF-8 from the other side: the code points there are, and the bytes each is written as.  What
 `Utf8.ValidUtf8` accepts is exactly what writing some of them gives.
 */
module CodePoints {
  import opened Wire
  import opened Utf8

  /** A Unicode scalar value: surrogates are not. */
  predicate IsScalar(c: nat) {
    c < 0xD800 || 0xDFFF < c <= 0x10FFFF
  }

  function Written(c: nat): (bs: Bytes)
    requires IsScalar(c)
    ensures 1 <= |bs| <= 4
  {
    if c < 0x80 then [c]
    else if c < 0x800 then [0xC0 + c / 64, 0x80 + c % 64]
    else if c < 0x1_0000 then [0xE0 + c / 4096, 0x80 + c / 64 % 64, 0x80 + c % 64]
    else [0xF0 + c / 262144, 0x80 + c / 4096 % 64, 0x80 + c / 64 % 64, 0x80 + c % 64]
  }

  predicate AllScalar(cs: seq<nat>) {
    forall i | 0 <= i < |cs| :: IsScalar(cs[i])
  }

  function WrittenAll(cs: seq<nat>): Bytes
    requires AllScalar(cs)
  {
    if cs == [] then [] else Written(cs[0]) + WrittenAll(cs[1..])
  }

  function Payload(b: Byte, marker: nat): int {
    b - marker
  }

  /** The code point at the start, by the bits of its bytes. */
  function Point(s: Bytes): (c: nat)
    requires CharLength(s) > 0
  {
    match CharLength(s)
    case 1 => s[0]
    case 2 => 64 * Payload(s[0], 0xC0) + Payload(s[1], 0x80)
    case 3 => 4096 * Payload(s[0], 0xE0) + 64 * Payload(s[1], 0x80) + Payload(s[2], 0x80)
    case _ =>
      262144 * Payload(s[0], 0xF0) + 4096 * Payload(s[1], 0x80) + 64 * Payload(s[2], 0x80) + Payload(s[3], 0x80)
  }

  lemma CharIsPoint(s: Bytes)
    requires CharLength(s) > 0
    ensures IsScalar(Point(s)) && Written(Point(s)) == s[..CharLength(s)]
  {
    if CharLength(s) == 3 {
      ThreeBytes(s);
    } else if CharLength(s) == 4 {
      FourBytes(s);
    } else {
      TwoBytes(s);
    }
  }

  lemma TwoBytes(s: Bytes)
    requires 0 < CharLength(s) <= 2
    ensures IsScalar(Point(s)) && Written(Point(s)) == s[..CharLength(s)]
  {}

  lemma ThreeBytes(s: Bytes)
    requires CharLength(s) == 3
    ensures IsScalar(Point(s)) && Written(Point(s)) == s[..3]
  {
    Digits(Payload(s[0], 0xE0), Payload(s[1], 0x80), Payload(s[2], 0x80));
  }

  lemma FourBytes(s: Bytes)
    requires CharLength(s) == 4
    ensures IsScalar(Point(s)) && Written(Point(s)) == s[..4]
  {
    Digits(64 * Payload(s[0], 0xF0) + Payload(s[1], 0x80), Payload(s[2], 0x80), Payload(s[3], 0x80));
  }

  lemma Digits(high: nat, middle: nat, low: nat)
    requires middle < 64 && low < 64
    ensures
      var c := 4096 * high + 64 * middle + low;
      c / 4096 == high && c / 64 % 64 == middle && c % 64 == low && c / 262144 == high / 64
  {
    var c := 4096 * high + 64 * middle + low;
    assert c / 64 == 64 * high + middle;
  }

  lemma PointIsChar(c: nat, rest: Bytes)
    requires IsScalar(c)
    ensures CharLength(Written(c) + rest) == |Written(c)|
  {
    if 0x800 <= c < 0x1_0000 {
      assert c / 64 == 64 * (c / 4096) + c / 64 % 64;
    } else if c >= 0x1_0000 {
      assert c / 4096 == 64 * (c / 262144) + c / 4096 % 64;
    }
  }

  lemma {:induction false} ValidIsWritten(s: Bytes) returns (cs: seq<nat>)
    requires ValidUtf8(s)
    ensures AllScalar(cs) && s == WrittenAll(cs)
  {
    hide CharLength, Written, Point, IsScalar;
    if s == [] {
      cs := [];
    } else {
      CharIsPoint(s);
      var rest := ValidIsWritten(s[CharLength(s)..]);
      cs := [Point(s)] + rest;
      assert cs[1..] == rest;
    }
  }

  lemma {:induction false} WrittenIsValid(cs: seq<nat>)
    requires AllScalar(cs)
    ensures ValidUtf8(WrittenAll(cs))
  {
    hide CharLength, Written, IsScalar;
    if cs != [] {
      WrittenIsValid(cs[1..]);
      PointIsChar(cs[0], WrittenAll(cs[1..]));
      assert WrittenAll(cs)[|Written(cs[0])|..] == WrittenAll(cs[1..]);
    }
  }

  /** Bytes are valid exactly when they are what some code points are written as. */
  lemma ValidIffWritten(s: Bytes)
    ensures ValidUtf8(s) <==> exists cs :: AllScalar(cs) && s == WrittenAll(cs)
  {
    hide ValidUtf8, WrittenAll, AllScalar;
    if ValidUtf8(s) {
      var cs := ValidIsWritten(s);
    }
    if cs :| AllScalar(cs) && s == WrittenAll(cs) {
      WrittenIsValid(cs);
    }
  }

  /** And no text is what two different sequences of code points are written as. */
  lemma {:induction false} WrittenOnce(cs: seq<nat>, ds: seq<nat>)
    requires AllScalar(cs) && AllScalar(ds) && WrittenAll(cs) == WrittenAll(ds)
    ensures cs == ds
  {
    hide CharLength, Written, IsScalar, Point;
    if cs == [] || ds == [] {
      NotNothing(cs);
      NotNothing(ds);
    } else {
      PointIsChar(cs[0], WrittenAll(cs[1..]));
      PointIsChar(ds[0], WrittenAll(ds[1..]));
      assert WrittenAll(cs)[..|Written(cs[0])|] == Written(cs[0]);
      assert WrittenAll(ds)[..|Written(ds[0])|] == Written(ds[0]);
      SamePoint(cs[0], ds[0]);
      assert WrittenAll(cs)[|Written(cs[0])|..] == WrittenAll(cs[1..]);
      assert WrittenAll(ds)[|Written(ds[0])|..] == WrittenAll(ds[1..]);
      WrittenOnce(cs[1..], ds[1..]);
      assert [cs[0]] + cs[1..] == cs && [ds[0]] + ds[1..] == ds;
    }
  }

  lemma NotNothing(cs: seq<nat>)
    requires AllScalar(cs)
    ensures WrittenAll(cs) == [] <==> cs == []
  {
    hide Written;
  }

  lemma SamePoint(c: nat, d: nat)
    requires IsScalar(c) && IsScalar(d) && Written(c) == Written(d)
    ensures c == d
  {
    PointBack(c);
    PointBack(d);
  }

  lemma PointBack(c: nat)
    requires IsScalar(c)
    ensures CharLength(Written(c)) > 0 && Point(Written(c)) == c
  {
    hide CharLength;
    PointIsChar(c, []);
    assert Written(c) + [] == Written(c);
    assert c == 64 * (c / 64) + c % 64;
    if c >= 0x800 {
      assert c / 64 == 64 * (c / 4096) + c / 64 % 64;
    }
    if c >= 0x1_0000 {
      assert c / 4096 == 64 * (c / 262144) + c / 4096 % 64;
    }
  }
}
