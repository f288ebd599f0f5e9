/**
 What the standard chain makes of one resource and one span, with the placeholders spelt out.
 */
module Repairs {
  import opened Wire
  import opened Utf8
  import opened SpanAttributes
  import opened Sanitizing

  // ---------- Numbered keys ----------

  /** Different numbers give different keys, so no invalid key's replacement overwrites another's. */
  lemma TagKeysDiffer(i: nat, j: nat)
    requires InvalidTagKey(i) == InvalidTagKey(j)
    ensures i == j
  {
    hide Decimal, Spelt;
    var prefix := "invalid-tag-key-";
    DecimalSpells(i);
    DecimalSpells(j);
    SameText(prefix + Decimal(i), prefix + Decimal(j));
    assert (prefix + Decimal(i))[|prefix|..] == Decimal(i) && (prefix + Decimal(j))[|prefix|..] == Decimal(j);
    assert prefix + Decimal(i) == prefix + Decimal(j);
  }

  lemma SameText(a: string, b: string)
    requires |a| > 16 && |b| > 16 && a[..16] == b[..16] && Text(a) == Text(b)
    requires forall i | 16 <= i < |a| :: '0' <= a[i] <= '9'
    requires forall i | 16 <= i < |b| :: '0' <= b[i] <= '9'
    ensures a == b
  {
    assert |Text(a)| == |a| && |Text(b)| == |b|;
    forall i | 16 <= i < |a| ensures a[i] == b[i] {
      assert Text(a)[i] == (a[i] as int) % 128 && Text(b)[i] == (b[i] as int) % 128;
    }
    assert forall i | 0 <= i < 16 :: a[i] == a[..16][i] == b[..16][i] == b[i];
  }

  lemma {:induction false} AsManyTagKeys(n: nat)
    ensures |TagKeys(n)| == n
  {
    hide InvalidTagKey;
    if n == 0 {
      assert TagKeys(0) == {};
    } else {
      AsManyTagKeys(n - 1);
      if InvalidTagKey(n) in TagKeys(n - 1) {
        var i :| 1 <= i <= n - 1 && InvalidTagKey(n) == InvalidTagKey(i);
        TagKeysDiffer(n, i);
      }
      assert TagKeys(n) == TagKeys(n - 1) + {InvalidTagKey(n)};
    }
  }

  /** Every invalid key has a replacement of its own. */
  lemma EachInvalidKeyIsReplaced(a: Attributes, b: Attributes)
    requires AttributesSanitized(a, b)
    ensures |TagKeys(|InvalidKeys(a)|)| == |InvalidKeys(a)| && TagKeys(|InvalidKeys(a)|) <= b.Keys
    ensures InvalidKeys(b) == {}
  {
    hide ValidUtf8, TagKeys;
    AsManyTagKeys(|InvalidKeys(a)|);
    AttributesComeOutClean(a, b);
    forall k <- b.Keys ensures ValidUtf8(k) {}
  }

  /** The numbers start at one. */
  lemma FirstTagKey(a: Attributes, b: Attributes)
    requires AttributesSanitized(a, b) && InvalidKeys(a) != {}
    ensures Text("invalid-tag-key-1") in b && b[Text("invalid-tag-key-1")].Raw?
  {
    hide ValidUtf8;
    assert Decimal(1) == "1" && "invalid-tag-key-" + "1" == "invalid-tag-key-1";
    assert InvalidTagKey(1) == Text("invalid-tag-key-1");
    assert InvalidTagKey(1) in TagKeys(|InvalidKeys(a)|);
  }

  // ---------- One resource ----------

  /** The service name of a sanitized resource: the one it had if that was a string that is not empty,
      made bytes if it was not UTF-8; otherwise a placeholder that says what was wrong. */
  lemma ServiceNameOutcome(r: Resource, u: Resource)
    requires AttributesSanitized(FixServiceName(r).attributes, u.attributes)
    ensures
      var key := Text("service.name");
      key in u.attributes &&
      u.attributes[key] ==
        if key !in r.attributes then Str(Text("missing-service-name"))
        else match r.attributes[key]
          case Str(s) => if s == [] then Str(Text("empty-service-name")) else if ValidUtf8(s) then Str(s) else Raw(s)
          case _ => Str(Text("service-name-wrong-type"))
  {
    hide ValidUtf8, Text, TagKeys;
    var a := FixServiceName(r).attributes;
    NamesAreValid();
    ServiceNameIsNoTag(|InvalidKeys(a)|);
    assert ServiceNameKey() in a.Keys - InvalidKeys(a) - TagKeys(|InvalidKeys(a)|);
    assert u.attributes[ServiceNameKey()] == CleanValue(a[ServiceNameKey()]);
  }

  /** Any other attribute with a valid key is kept: a string that is not UTF-8 as bytes, all else as it is. */
  lemma AttributeOutcome(r: Resource, u: Resource, k: Bytes)
    requires AttributesSanitized(FixServiceName(r).attributes, u.attributes)
    requires k in r.attributes && k != Text("service.name") && ValidUtf8(k)
    requires k !in TagKeys(|InvalidKeys(r.attributes)|)
    ensures
      k in u.attributes &&
      u.attributes[k] == match r.attributes[k]
        case Str(s) => if ValidUtf8(s) then Str(s) else Raw(s)
        case v => v
  {
    hide ValidUtf8, Text, TagKeys;
    var a := FixServiceName(r).attributes;
    NamesAreValid();
    assert InvalidKeys(a) == InvalidKeys(r.attributes);
    assert k in a.Keys - InvalidKeys(a) - TagKeys(|InvalidKeys(a)|);
  }

  // ---------- One span ----------

  /** The name of a sanitized span, and where an invalid one went. */
  lemma SpanNameOutcome(s: Span, u: Span, spell: (Uint64, Uint64) -> Bytes)
    requires SpanChained(s, u, spell)
    ensures
      u.name ==
        if s.name == [] then Text("empty-span-name")
        else if ValidUtf8(s.name) then s.name
        else Text("invalid-span-name")
    ensures
      s.name != [] && !ValidUtf8(s.name) ==>
        Text("invalid-span-name") in u.attributes && u.attributes[Text("invalid-span-name")] == Raw(s.name)
  {
    hide ValidUtf8, Text, TagKeys, WithWarnings;
    TextIsValid("empty-span-name");
    TextIsValid("invalid-span-name");
    NamesAreNotEmpty();
    var v: Span :| SpanSanitized(FixSpanName(s), v) && u == FixDuration(v, spell);
    if s.name != [] && !ValidUtf8(s.name) {
      var a := NameMoved(FixSpanName(s)).attributes;
      SpanNameIsNoTag(|InvalidKeys(a)|);
      assert InvalidSpanName() in a.Keys - InvalidKeys(a) - TagKeys(|InvalidKeys(a)|);
      assert v.attributes[InvalidSpanName()] == CleanValue(a[InvalidSpanName()]);
      WarningsElsewhere(v.attributes, spell(v.end, u.end));
    }
  }

  lemma WarningsElsewhere(a: Attributes, warning: Bytes)
    ensures
      InvalidSpanName() in a ==>
        InvalidSpanName() in WithWarnings(a, [warning])
        && WithWarnings(a, [warning])[InvalidSpanName()] == a[InvalidSpanName()]
  {
    var key, other := WarningsKey(), InvalidSpanName();
    assert key[0] == ('@' as int) % 128 && other[0] == ('i' as int) % 128;
  }

  lemma SpanNameIsNoTag(n: nat)
    ensures InvalidSpanName() !in TagKeys(n)
  {
    forall i | 1 <= i <= n ensures InvalidTagKey(i) != InvalidSpanName() {
      assert InvalidTagKey(i)[8] == ('t' as int) % 128 && InvalidSpanName()[8] == ('s' as int) % 128;
    }
  }

  /** The end of a span is left alone if it comes after the start, and is otherwise one nanosecond later than
      the start, with one warning more; nothing else about the span changes. */
  lemma DurationOutcome(s: Span, spell: (Uint64, Uint64) -> Bytes)
    ensures
      var u := FixDuration(s, spell);
      if AsTime(s.start) < AsTime(s.end) then u == s
      else
        u.name == s.name && u.start == s.start
        && (AsTime(s.start) < TWO_63 - 1 ==> AsTime(u.end) == AsTime(s.start) + 1)
        && (AsTime(s.start) == TWO_63 - 1 ==> AsTime(u.end) == -TWO_63)
        && WarningsOf(u.attributes) == WarningsOf(s.attributes) + [spell(s.end, u.end)]
        && u.attributes - {WarningsKey()} == s.attributes - {WarningsKey()}
  {
    hide WithWarnings, WarningsOf, Text;
    WarningsAccumulate(s.attributes, [spell(s.end, ToUint64(AsTime(s.start) + 1))]);
  }

  // ---------- Literals ----------

  /** The attributes by which others find the service name and the warnings. */
  lemma KeysAre()
    ensures ServiceNameKey() == [115, 101, 114, 118, 105, 99, 101, 46, 110, 97, 109, 101]
    ensures WarningsKey() == [64, 106, 97, 101, 103, 101, 114, 64, 119, 97, 114, 110, 105, 110, 103, 115]
  {}

  /** Timestamps past the largest int64 are before the epoch. */
  lemma AsTimeIs(ts: Uint64)
    ensures AsTime(ts) == if ts <= 0x7FFF_FFFF_FFFF_FFFF then ts else ts - 0x1_0000_0000_0000_0000
  {}
}
