/**
 The sanitizers as passes over trace data that may be read-only: each looks first, and only then
 rewrites, in place or on a copy.
 */
module Sanitizer {
  import opened Results
  import opened Wire
  import opened Utf8
  import opened SpanAttributes
  import opened Sanitizing

  class TraceData {
    var resources: Traces
    const readOnly: bool

    constructor (resources: Traces, readOnly: bool)
      ensures this.resources == resources && this.readOnly == readOnly
    {
      this.resources, this.readOnly := resources, readOnly;
    }
  }

  /** The traces themselves, or a copy of them when they may not be touched. */
  method WorkingCopy(traces: TraceData) returns (working: TraceData)
    ensures working.resources == traces.resources && !working.readOnly
    ensures if traces.readOnly then fresh(working) else working == traces
  {
    if traces.readOnly {
      working := new TraceData(traces.resources, false);
    } else {
      working := traces;
    }
  }

  // ---------- Service names ----------

  method SanitizeEmptyServiceName(traces: TraceData) returns (out: TraceData)
    modifies traces
    ensures out.resources == FixServiceNames(old(traces.resources))
    ensures traces.readOnly || !NeedsServiceName(old(traces.resources)) ==> traces.resources == old(traces.resources)
    ensures out == traces || fresh(out)
    ensures !NeedsServiceName(old(traces.resources)) ==> out == traces
  {
    hide FixServiceName, ServiceNameRepair;
    var needsModification := false;
    for i := 0 to |traces.resources|
      invariant !needsModification
      invariant forall x | 0 <= x < i :: ServiceNameRepair(traces.resources[x].attributes) == None
    {
      if ServiceNameRepair(traces.resources[i].attributes).Some? {
        needsModification := true;
        break;
      }
    }
    ServiceNamesChangeIff(traces.resources);
    if !needsModification {
      return traces;
    }
    out := WorkingCopy(traces);
    var n := |out.resources|;
    ghost var was := out.resources;
    for i := 0 to n
      invariant |out.resources| == n
      invariant forall x | 0 <= x < n :: out.resources[x] == if x < i then FixServiceName(was[x]) else was[x]
      invariant out != traces ==> traces.resources == old(traces.resources)
    {
      out.resources := out.resources[i := FixServiceName(out.resources[i])];
    }
  }

  // ---------- Span names and durations ----------

  /** The guard loop shared by the sanitizers of single spans. */
  method AnySpan(t: Traces, p: Span -> bool) returns (found: bool)
    ensures found <==> Somewhere(t, p)
  {
    for i := 0 to |t|
      invariant forall x | 0 <= x < i :: !InScopes(t[x].scopes, p)
    {
      for j := 0 to |t[i].scopes|
        invariant forall y | 0 <= y < j :: !InSpans(t[i].scopes[y].spans, p)
      {
        var spans := t[i].scopes[j].spans;
        for k := 0 to |spans|
          invariant forall z | 0 <= z < k :: !p(spans[z])
        {
          if p(spans[k]) {
            assert InSpans(t[i].scopes[j].spans, p);
            assert InScopes(t[i].scopes, p);
            return true;
          }
        }
        assert !InSpans(spans, p);
      }
      assert !InScopes(t[i].scopes, p);
    }
    return false;
  }

  /** The rewriting loop they share. */
  method EachSpan(working: TraceData, f: Span -> Span)
    modifies working
    ensures working.resources == MapSpans(old(working.resources), f)
  {
    hide MapScopes;
    var n := |working.resources|;
    ghost var was := working.resources;
    for i := 0 to n
      invariant |working.resources| == n
      invariant forall x | 0 <= x < n ::
                  working.resources[x] == if x < i then was[x].(scopes := MapScopes(was[x].scopes, f)) else was[x]
    {
      var scopes := EachSpanIn(working.resources[i].scopes, f);
      working.resources := working.resources[i := working.resources[i].(scopes := scopes)];
    }
  }

  method EachSpanIn(scopes: seq<Scope>, f: Span -> Span) returns (out: seq<Scope>)
    ensures out == MapScopes(scopes, f)
  {
    hide MapList;
    out := scopes;
    for j := 0 to |scopes|
      invariant |out| == |scopes|
      invariant forall y | 0 <= y < |scopes| ::
                  out[y] == if y < j then scopes[y].(spans := MapList(scopes[y].spans, f)) else scopes[y]
    {
      var spans := out[j].spans;
      for k := 0 to |spans|
        invariant |spans| == |scopes[j].spans|
        invariant forall z | 0 <= z < |spans| :: spans[z] == if z < k then f(scopes[j].spans[z]) else scopes[j].spans[z]
      {
        spans := spans[k := f(spans[k])];
      }
      assert spans == MapList(scopes[j].spans, f) by { MapListIs(scopes[j].spans, f, spans); }
      out := out[j := out[j].(spans := spans)];
    }
  }

  lemma MapListIs(ps: seq<Span>, f: Span -> Span, us: seq<Span>)
    requires |us| == |ps| && forall k | 0 <= k < |ps| :: us[k] == f(ps[k])
    ensures us == MapList(ps, f)
  {}

  method SanitizeEmptySpanName(traces: TraceData) returns (out: TraceData)
    modifies traces
    ensures out.resources == MapSpans(old(traces.resources), FixSpanName)
    ensures traces.readOnly || !Somewhere(old(traces.resources), NeedsSpanName)
            ==> traces.resources == old(traces.resources)
    ensures out == traces || fresh(out)
    ensures !Somewhere(old(traces.resources), NeedsSpanName) ==> out == traces
  {
    hide FixSpanName, NeedsSpanName, Somewhere, MapSpans;
    forall s ensures FixSpanName(s) == s <==> !NeedsSpanName(s) {
      FixSpanNameChanges(s);
    }
    MapSpansChangesIff(traces.resources, FixSpanName, NeedsSpanName);
    var needed := AnySpan(traces.resources, NeedsSpanName);
    if !needed {
      return traces;
    }
    out := WorkingCopy(traces);
    EachSpan(out, FixSpanName);
  }

  method SanitizeNegativeDuration(traces: TraceData, spell: (Uint64, Uint64) -> Bytes) returns (out: TraceData)
    modifies traces
    ensures out.resources == MapSpans(old(traces.resources), s => FixDuration(s, spell))
    ensures traces.readOnly || !Somewhere(old(traces.resources), NeedsDuration)
            ==> traces.resources == old(traces.resources)
    ensures out == traces || fresh(out)
    ensures !Somewhere(old(traces.resources), NeedsDuration) ==> out == traces
  {
    hide FixDuration, NeedsDuration, Somewhere, MapSpans;
    var fix := s => FixDuration(s, spell);
    forall s ensures fix(s) == s <==> !NeedsDuration(s) {
      FixDurationChanges(s, spell);
    }
    MapSpansChangesIff(traces.resources, fix, NeedsDuration);
    var needed := AnySpan(traces.resources, NeedsDuration);
    if !needed {
      return traces;
    }
    out := WorkingCopy(traces);
    EachSpan(out, fix);
  }

  // ---------- UTF-8 ----------

  /** First the values, noting the keys; then the keys, in whatever order.  What the bytes of a
      replaced key come to depends on the library's aliasing, and is left open. */
  method SanitizeAttributes(attributes: Attributes) returns (out: Attributes)
    ensures AttributesSanitized(attributes, out)
  {
    hide ValidUtf8, InvalidTagKey, TagKeys;
    var invalidKeys: set<Bytes> := {};
    out := attributes;
    var keys := attributes.Keys;
    while keys != {}
      invariant keys <= attributes.Keys == out.Keys
      invariant invalidKeys == InvalidKeys(attributes) - keys
      invariant forall k <- attributes :: out[k] == if k in keys then attributes[k] else CleanValue(attributes[k])
      decreases keys
    {
      var k :| k in keys;
      if !ValidUtf8(k) {
        invalidKeys := invalidKeys + {k};
      }
      if out[k].Str? && !ValidUtf8(out[k].s) {
        out := out[k := Raw(out[k].s)];
      }
      keys := keys - {k};
    }
    out := ReplaceKeys(attributes, out, invalidKeys);
  }

  method ReplaceKeys(ghost attributes: Attributes, values: Attributes, invalidKeys: set<Bytes>)
    returns (out: Attributes)
    requires values.Keys == attributes.Keys && invalidKeys == InvalidKeys(attributes)
    requires forall k <- attributes :: values[k] == CleanValue(attributes[k])
    ensures AttributesSanitized(attributes, out)
  {
    hide ValidUtf8, InvalidTagKey, TagKeys;
    NoTags();
    out := values;
    var i, left := 1, invalidKeys;
    while left != {}
      invariant i >= 1 && i - 1 + |left| == |invalidKeys|
      invariant left <= invalidKeys
      invariant out.Keys == attributes.Keys - (invalidKeys - left) + TagKeys(i - 1)
      invariant forall k <- attributes.Keys - invalidKeys - TagKeys(i - 1) :: out[k] == CleanValue(attributes[k])
      invariant forall k <- TagKeys(i - 1) :: out[k].Raw?
      decreases left
    {
      var k :| k in left;
      var content: Bytes := *;
      TagKeyIsValid(i);
      OneMoreTag(i);
      TagsAreValid(i);
      out := out[InvalidTagKey(i) := Raw(content)];
      i := i + 1;
      out := out - {k};
      left := left - {k};
    }
  }

  lemma NoTags()
    ensures TagKeys(0) == {}
  {}

  lemma OneMoreTag(i: nat)
    requires i >= 1
    ensures TagKeys(i) == TagKeys(i - 1) + {InvalidTagKey(i)}
  {}

  lemma TagsAreValid(n: nat)
    ensures forall k <- TagKeys(n) :: ValidUtf8(k)
  {
    hide ValidUtf8, InvalidTagKey;
    forall k | k in TagKeys(n) ensures ValidUtf8(k) {
      var i :| 1 <= i <= n && k == InvalidTagKey(i);
      TagKeyIsValid(i);
    }
  }

  method SanitizeSpan(span: Span) returns (out: Span)
    ensures SpanSanitized(span, out)
  {
    hide ValidUtf8, AttributesSanitized, InvalidSpanName;
    out := span;
    if !ValidUtf8(out.name) {
      out := out.(attributes := out.attributes[InvalidSpanName() := Raw(out.name)]);
      out := out.(name := InvalidSpanName());
    }
    var attributes := SanitizeAttributes(out.attributes);
    out := out.(attributes := attributes);
  }

  method SanitizeScope(scope: Scope) returns (out: Scope)
    ensures ScopeSanitized(scope, out)
  {
    hide AttributesSanitized, SpanSanitized;
    var attributes := SanitizeAttributes(scope.attributes);
    var spans := scope.spans;
    for k := 0 to |spans|
      invariant |spans| == |scope.spans|
      invariant forall z | 0 <= z < k :: SpanSanitized(scope.spans[z], spans[z])
      invariant forall z | k <= z < |spans| :: spans[z] == scope.spans[z]
    {
      var span := SanitizeSpan(spans[k]);
      spans := spans[k := span];
    }
    out := Scope(attributes, spans);
  }

  method SanitizeResource(resource: Resource) returns (out: Resource)
    ensures ResourceSanitized(resource, out)
  {
    hide AttributesSanitized, ScopeSanitized;
    var attributes := SanitizeAttributes(resource.attributes);
    var scopes := resource.scopes;
    for j := 0 to |scopes|
      invariant |scopes| == |resource.scopes|
      invariant forall y | 0 <= y < j :: ScopeSanitized(resource.scopes[y], scopes[y])
      invariant forall y | j <= y < |scopes| :: scopes[y] == resource.scopes[y]
    {
      var scope := SanitizeScope(scopes[j]);
      scopes := scopes[j := scope];
    }
    out := Resource(attributes, scopes);
  }

  method AttributesNeedUTF8Sanitization(attributes: Attributes) returns (needed: bool)
    ensures needed <==> !CleanAttributes(attributes)
  {
    hide ValidUtf8;
    var keys := attributes.Keys;
    while keys != {}
      invariant keys <= attributes.Keys
      invariant forall k <- attributes.Keys - keys ::
                  ValidUtf8(k) && (attributes[k].Str? ==> ValidUtf8(attributes[k].s))
      decreases keys
    {
      var k :| k in keys;
      if !ValidUtf8(k) || (attributes[k].Str? && !ValidUtf8(attributes[k].s)) {
        return true;
      }
      keys := keys - {k};
    }
    return false;
  }

  method TracesNeedUTF8Sanitization(t: Traces) returns (needed: bool)
    ensures needed <==> !CleanTraces(t)
  {
    hide CleanScope, CleanAttributes;
    for i := 0 to |t|
      invariant forall x | 0 <= x < i :: CleanResource(t[x])
    {
      var resourceNeeds := AttributesNeedUTF8Sanitization(t[i].attributes);
      if resourceNeeds {
        return true;
      }
      for j := 0 to |t[i].scopes|
        invariant forall y | 0 <= y < j :: CleanScope(t[i].scopes[y])
      {
        var scopeNeeds := ScopeNeedsUTF8Sanitization(t[i].scopes[j]);
        if scopeNeeds {
          return true;
        }
      }
    }
    return false;
  }

  method ScopeNeedsUTF8Sanitization(scope: Scope) returns (needed: bool)
    ensures needed <==> !CleanScope(scope)
  {
    hide ValidUtf8, CleanAttributes;
    needed := AttributesNeedUTF8Sanitization(scope.attributes);
    if needed {
      return;
    }
    for k := 0 to |scope.spans|
      invariant forall z | 0 <= z < k :: CleanSpan(scope.spans[z])
    {
      var span := scope.spans[k];
      var attributesNeed := AttributesNeedUTF8Sanitization(span.attributes);
      if !ValidUtf8(span.name) || attributesNeed {
        return true;
      }
    }
    return false;
  }

  method SanitizeUTF8(traces: TraceData) returns (out: TraceData)
    modifies traces
    ensures TracesSanitized(old(traces.resources), out.resources)
    ensures traces.readOnly || CleanTraces(old(traces.resources)) ==> traces.resources == old(traces.resources)
    ensures out == traces || fresh(out)
    ensures CleanTraces(old(traces.resources)) ==> out == traces
  {
    hide ResourceSanitized, CleanResource;
    var needed := TracesNeedUTF8Sanitization(traces.resources);
    if !needed {
      CleanTracesStay(traces.resources);
      return traces;
    }
    out := WorkingCopy(traces);
    var n := |out.resources|;
    ghost var was := out.resources;
    for i := 0 to n
      invariant |out.resources| == n
      invariant forall x | 0 <= x < i :: ResourceSanitized(was[x], out.resources[x])
      invariant forall x | i <= x < n :: out.resources[x] == was[x]
      invariant out != traces ==> traces.resources == old(traces.resources)
    {
      var resource := SanitizeResource(out.resources[i]);
      out.resources := out.resources[i := resource];
    }
  }

  // ---------- The chain ----------

  /** The standard sanitizers, in their order.  Read-only traces are left as they were. */
  method Sanitize(traces: TraceData, spell: (Uint64, Uint64) -> Bytes) returns (out: TraceData)
    modifies traces
    ensures ChainSanitized(old(traces.resources), out.resources, spell)
    ensures traces.readOnly ==> traces.resources == old(traces.resources)
    ensures out == traces || fresh(out)
  {
    hide TracesSanitized, MapSpans, FixServiceNames, Somewhere, NeedsServiceName, CleanTraces;
    var t1 := SanitizeEmptyServiceName(traces);
    var t2 := SanitizeEmptySpanName(t1);
    ghost var before := t2.resources;
    out := SanitizeUTF8(t2);
    ghost var v := out.resources;
    out := SanitizeNegativeDuration(out, spell);
    assert TracesSanitized(before, v);
  }
}
