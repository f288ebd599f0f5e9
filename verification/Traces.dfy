/**
 Trace data: resources hold scopes, scopes hold spans.  Trees are values here.
 */
module Traces {
  import opened Wire
  import opened SpanAttributes

  type TraceId = nat

  const NO_TRACE_ID: TraceId := 0

  datatype Span = Span(traceId: TraceId, body: string, attributes: Attributes)

  datatype ScopeSpans = ScopeSpans(scope: string, schemaUrl: string, spans: seq<Span>)

  datatype ResourceSpans = ResourceSpans(resource: string, schemaUrl: string, scopes: seq<ScopeSpans>)

  type Trace = seq<ResourceSpans>

  /** A span with the containers it sits in. */
  datatype Placed = Placed(
    resource: string, resourceSchemaUrl: string, scope: string, scopeSchemaUrl: string, span: Span)

  // ---------- The spans of a trace, in iteration order ----------

  function PlaceSpans(r: ResourceSpans, s: ScopeSpans, spans: seq<Span>): (ps: seq<Placed>)
    ensures |ps| == |spans|
  {
    if spans == [] then []
    else [Placed(r.resource, r.schemaUrl, s.scope, s.schemaUrl, spans[0])] + PlaceSpans(r, s, spans[1..])
  }

  function PlaceScopes(r: ResourceSpans, scopes: seq<ScopeSpans>): seq<Placed> {
    if scopes == [] then [] else PlaceSpans(r, scopes[0], scopes[0].spans) + PlaceScopes(r, scopes[1..])
  }

  function Flatten(t: Trace): seq<Placed> {
    if t == [] then [] else PlaceScopes(t[0], t[0].scopes) + Flatten(t[1..])
  }

  function SpansIn(scopes: seq<ScopeSpans>): nat {
    if scopes == [] then 0 else |scopes[0].spans| + SpansIn(scopes[1..])
  }

  function SpanCount(t: Trace): nat {
    if t == [] then 0 else SpansIn(t[0].scopes) + SpanCount(t[1..])
  }

  /** The first span's trace ID, or the empty one. */
  function GetTraceId(t: Trace): TraceId {
    if Flatten(t) == [] then NO_TRACE_ID else Flatten(t)[0].span.traceId
  }

  lemma {:induction false} SpansInCountsPlaced(r: ResourceSpans, scopes: seq<ScopeSpans>)
    ensures |PlaceScopes(r, scopes)| == SpansIn(scopes)
  {
    if scopes != [] {
      SpansInCountsPlaced(r, scopes[1..]);
    }
  }

  lemma {:induction false} SpanCountIsFlat(t: Trace)
    ensures SpanCount(t) == |Flatten(t)|
  {
    if t != [] {
      SpansInCountsPlaced(t[0], t[0].scopes);
      SpanCountIsFlat(t[1..]);
    }
  }

  lemma FlattenNothing()
    ensures Flatten([]) == []
  {}

  lemma FlattenCons(r: ResourceSpans, rest: Trace)
    ensures Flatten([r] + rest) == PlaceScopes(r, r.scopes) + Flatten(rest)
  {
    hide PlaceScopes;
    assert ([r] + rest)[1..] == rest;
  }

  lemma {:induction false} FlattenConcat(a: Trace, b: Trace)
    ensures Flatten(a + b) == Flatten(a) + Flatten(b)
  {
    hide PlaceScopes, Flatten;
    if a == [] {
      assert a + b == b;
      FlattenNothing();
    } else {
      FlattenConcat(a[1..], b);
      FlattenCons(a[0], a[1..]);
      FlattenCons(a[0], a[1..] + b);
      assert [a[0]] + a[1..] == a && [a[0]] + (a[1..] + b) == a + b;
    }
  }

  // ---------- The first `limit` spans, with no container that would be empty ----------

  function Min(a: nat, b: nat): nat {
    if a <= b then a else b
  }

  function CutScope(s: ScopeSpans, limit: nat): seq<ScopeSpans> {
    if limit == 0 || s.spans == [] then [] else [s.(spans := s.spans[..Min(limit, |s.spans|)])]
  }

  function CutScopes(scopes: seq<ScopeSpans>, limit: nat): seq<ScopeSpans> {
    if scopes == [] then []
    else CutScope(scopes[0], limit) + CutScopes(scopes[1..], limit - Min(limit, |scopes[0].spans|))
  }

  function CutResource(r: ResourceSpans, limit: nat): Trace {
    if CutScopes(r.scopes, limit) == [] then [] else [r.(scopes := CutScopes(r.scopes, limit))]
  }

  function Cut(t: Trace, limit: nat): Trace {
    if t == [] then []
    else CutResource(t[0], limit) + Cut(t[1..], limit - Min(limit, SpansIn(t[0].scopes)))
  }

  predicate NoEmptyContainers(t: Trace) {
    forall r <- t :: r.scopes != [] && forall s <- r.scopes :: s.spans != []
  }

  lemma {:induction false} PlaceSpansTake(r: ResourceSpans, s: ScopeSpans, spans: seq<Span>, n: nat)
    requires n <= |spans|
    ensures PlaceSpans(r, s, spans[..n]) == PlaceSpans(r, s, spans)[..n]
  {
    if n > 0 {
      PlaceSpansTake(r, s, spans[1..], n - 1);
      assert spans[..n][1..] == spans[1..][..n - 1];
    }
  }

  /** Only the containers' own attributes matter for where a span sits. */
  lemma {:induction false} PlaceSpansIgnores(
      r: ResourceSpans, s: ScopeSpans, r': ResourceSpans, s': ScopeSpans, spans: seq<Span>)
    requires r.resource == r'.resource && r.schemaUrl == r'.schemaUrl
    requires s.scope == s'.scope && s.schemaUrl == s'.schemaUrl
    ensures PlaceSpans(r, s, spans) == PlaceSpans(r', s', spans)
  {
    if spans != [] {
      PlaceSpansIgnores(r, s, r', s', spans[1..]);
    }
  }

  lemma {:induction false} PlaceScopesIgnores(r: ResourceSpans, r': ResourceSpans, scopes: seq<ScopeSpans>)
    requires r.resource == r'.resource && r.schemaUrl == r'.schemaUrl
    ensures PlaceScopes(r, scopes) == PlaceScopes(r', scopes)
  {
    if scopes != [] {
      PlaceSpansIgnores(r, scopes[0], r', scopes[0], scopes[0].spans);
      PlaceScopesIgnores(r, r', scopes[1..]);
    }
  }

  lemma PlaceNoScopes(r: ResourceSpans)
    ensures PlaceScopes(r, []) == []
  {}

  lemma PlaceScopesCons(r: ResourceSpans, s: ScopeSpans, rest: seq<ScopeSpans>)
    ensures PlaceScopes(r, [s] + rest) == PlaceSpans(r, s, s.spans) + PlaceScopes(r, rest)
  {
    assert ([s] + rest)[1..] == rest;
  }

  lemma {:induction false} PlaceScopesConcat(r: ResourceSpans, a: seq<ScopeSpans>, b: seq<ScopeSpans>)
    ensures PlaceScopes(r, a + b) == PlaceScopes(r, a) + PlaceScopes(r, b)
  {
    hide PlaceSpans, PlaceScopes;
    if a == [] {
      assert a + b == b;
      PlaceNoScopes(r);
    } else {
      PlaceScopesConcat(r, a[1..], b);
      PlaceScopesCons(r, a[0], a[1..]);
      PlaceScopesCons(r, a[0], a[1..] + b);
      assert [a[0]] + a[1..] == a && [a[0]] + (a[1..] + b) == a + b;
    }
  }

  lemma CutScopePlaces(r: ResourceSpans, s: ScopeSpans, limit: nat)
    ensures PlaceScopes(r, CutScope(s, limit)) == PlaceSpans(r, s, s.spans)[..Min(limit, |s.spans|)]
  {
    if limit != 0 && s.spans != [] {
      var n := Min(limit, |s.spans|);
      var s' := s.(spans := s.spans[..n]);
      PlaceSpansTake(r, s, s.spans, n);
      PlaceSpansIgnores(r, s, r, s', s'.spans);
      assert [s'][1..] == [];
    }
  }

  lemma {:induction false} CutScopesPlaces(r: ResourceSpans, scopes: seq<ScopeSpans>, limit: nat)
    ensures var all := PlaceScopes(r, scopes);
            PlaceScopes(r, CutScopes(scopes, limit)) == all[..Min(limit, |all|)]
  {
    if scopes != [] {
      hide CutScope, PlaceSpans;
      var n := Min(limit, |scopes[0].spans|);
      CutScopePlaces(r, scopes[0], limit);
      CutScopesPlaces(r, scopes[1..], limit - n);
      PlaceScopesConcat(r, CutScope(scopes[0], limit), CutScopes(scopes[1..], limit - n));
      TakeConcat(PlaceSpans(r, scopes[0], scopes[0].spans), PlaceScopes(r, scopes[1..]), limit);
    }
  }

  /** The partial copy holds exactly the first spans, each where it was. */
  lemma {:induction false} CutFlattens(t: Trace, limit: nat)
    ensures Flatten(Cut(t, limit)) == Flatten(t)[..Min(limit, |Flatten(t)|)]
  {
    hide CutResource, CutScopes, PlaceScopes, SpansIn;
    if t != [] {
      var r, n := t[0], Min(limit, SpansIn(t[0].scopes));
      SpansInCountsPlaced(r, r.scopes);
      CutScopesPlaces(r, r.scopes, limit);
      CutFlattens(t[1..], limit - n);
      CutResourceFlattens(r, limit);
      FlattenConcat(CutResource(r, limit), Cut(t[1..], limit - n));
      TakeConcat(PlaceScopes(r, r.scopes), Flatten(t[1..]), limit);
    }
  }

  lemma TakeConcat<T>(a: seq<T>, b: seq<T>, limit: nat)
    ensures (a + b)[..Min(limit, |a + b|)] == a[..Min(limit, |a|)] + b[..Min(limit - Min(limit, |a|), |b|)]
  {}

  lemma CutResourceFlattens(r: ResourceSpans, limit: nat)
    ensures Flatten(CutResource(r, limit)) == PlaceScopes(r, CutScopes(r.scopes, limit))
  {
    var cut := CutScopes(r.scopes, limit);
    if cut != [] {
      PlaceScopesIgnores(r, r.(scopes := cut), cut);
      assert [r.(scopes := cut)][1..] == [];
    }
  }

  lemma {:induction false} CutScopesLeavesNoneEmpty(scopes: seq<ScopeSpans>, limit: nat)
    ensures forall s <- CutScopes(scopes, limit) :: s.spans != []
  {
    if scopes != [] {
      CutScopesLeavesNoneEmpty(scopes[1..], limit - Min(limit, |scopes[0].spans|));
    }
  }

  lemma {:induction false} CutLeavesNoneEmpty(t: Trace, limit: nat)
    ensures NoEmptyContainers(Cut(t, limit))
  {
    if t != [] {
      CutScopesLeavesNoneEmpty(t[0].scopes, limit);
      CutLeavesNoneEmpty(t[1..], limit - Min(limit, SpansIn(t[0].scopes)));
    }
  }

  // ---------- The warning on the first span ----------

  function AddWarning(s: Span, warning: Bytes): Span {
    s.(attributes := WithWarnings(s.attributes, [warning]))
  }

  function MarkScopes(scopes: seq<ScopeSpans>, warning: Bytes): seq<ScopeSpans> {
    if scopes == [] then []
    else if scopes[0].spans == [] then [scopes[0]] + MarkScopes(scopes[1..], warning)
    else [scopes[0].(spans := [AddWarning(scopes[0].spans[0], warning)] + scopes[0].spans[1..])] + scopes[1..]
  }

  /** markTraceTruncated: the first span in iteration order gets the warning. */
  function MarkFirst(t: Trace, warning: Bytes): Trace {
    if t == [] then []
    else if SpansIn(t[0].scopes) == 0 then [t[0]] + MarkFirst(t[1..], warning)
    else [t[0].(scopes := MarkScopes(t[0].scopes, warning))] + t[1..]
  }

  function WarnFirst(ps: seq<Placed>, warning: Bytes): seq<Placed> {
    if ps == [] then [] else [ps[0].(span := AddWarning(ps[0].span, warning))] + ps[1..]
  }

  lemma {:induction false} MarkScopesPlaces(r: ResourceSpans, scopes: seq<ScopeSpans>, warning: Bytes)
    ensures PlaceScopes(r, MarkScopes(scopes, warning)) == WarnFirst(PlaceScopes(r, scopes), warning)
  {
    if scopes != [] {
      var s, rest := scopes[0], scopes[1..];
      if s.spans == [] {
        MarkScopesPlaces(r, rest, warning);
        assert ([s] + MarkScopes(rest, warning))[1..] == MarkScopes(rest, warning);
      } else {
        var s' := s.(spans := [AddWarning(s.spans[0], warning)] + s.spans[1..]);
        assert s'.spans[1..] == s.spans[1..];
        PlaceSpansIgnores(r, s, r, s', s.spans[1..]);
        assert ([s'] + rest)[1..] == rest;
        assert PlaceSpans(r, s', s'.spans) == WarnFirst(PlaceSpans(r, s, s.spans), warning);
      }
    }
  }

  /** Marking changes the first span and nothing else. */
  lemma {:induction false} MarkFirstFlattens(t: Trace, warning: Bytes)
    ensures Flatten(MarkFirst(t, warning)) == WarnFirst(Flatten(t), warning)
  {
    hide MarkScopes, SpansIn, PlaceScopes, Flatten;
    FlattenNothing();
    if t != [] {
      var r, rest := t[0], t[1..];
      FlattenCons(r, rest);
      assert t == [r] + rest;
      SpansInCountsPlaced(r, r.scopes);
      if SpansIn(r.scopes) == 0 {
        MarkFirstFlattens(rest, warning);
        FlattenCons(r, MarkFirst(rest, warning));
      } else {
        var r' := r.(scopes := MarkScopes(r.scopes, warning));
        PlaceScopesIgnores(r, r', r'.scopes);
        MarkScopesPlaces(r, r.scopes, warning);
        FlattenCons(r', rest);
      }
    }
  }
}
