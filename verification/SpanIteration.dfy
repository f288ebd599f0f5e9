/**
 The iteration over the spans of a trace, which finds a trace's ID and the span to mark.
 */
module SpanIteration {
  import opened Traces
  import opened Yielding

  /** A span and the position it is yielded with. */
  datatype Visit = Visit(resource: ResourceSpans, resourceIndex: nat, scope: ScopeSpans, scopeIndex: nat, span: Span)

  function VisitSpans(r: ResourceSpans, i: nat, s: ScopeSpans, j: nat, k: nat): seq<Visit>
    requires k <= |s.spans|
    decreases |s.spans| - k
  {
    if k == |s.spans| then [] else [Visit(r, i, s, j, s.spans[k])] + VisitSpans(r, i, s, j, k + 1)
  }

  function VisitScopes(r: ResourceSpans, i: nat, j: nat): seq<Visit>
    requires j <= |r.scopes|
    decreases |r.scopes| - j
  {
    if j == |r.scopes| then [] else VisitSpans(r, i, r.scopes[j], j, 0) + VisitScopes(r, i, j + 1)
  }

  function Visits(t: Trace, i: nat := 0): seq<Visit>
    requires i <= |t|
    decreases |t| - i
  {
    if i == |t| then [] else VisitScopes(t[i], i, 0) + Visits(t, i + 1)
  }

  method SpanIter(traces: Trace, consumer: seq<Visit> -> bool) returns (out: seq<Visit>)
    ensures Delivered(consumer, out, Visits(traces))
  {
    hide VisitSpans, VisitScopes, Visits, Accepted;
    out := [];
    NoVisits(traces);
    NothingAccepted(consumer);
    for i := 0 to |traces|
      invariant Accepted(consumer, out, |out|)
      invariant out + Visits(traces, i) == Visits(traces)
    {
      var resource := traces[i];
      VisitsUnfold(traces, i);
      for j := 0 to |resource.scopes|
        invariant Accepted(consumer, out, |out|)
        invariant out + (VisitScopes(resource, i, j) + Visits(traces, i + 1)) == Visits(traces)
      {
        ghost var later := VisitScopes(resource, i, j + 1) + Visits(traces, i + 1);
        VisitScopesUnfold(resource, i, j);
        var more;
        ghost var before := out;
        out, more := IterScope(resource, i, j, consumer, out);
        assert before + (VisitSpans(resource, i, resource.scopes[j], j, 0) + later)
            == before + VisitSpans(resource, i, resource.scopes[j], j, 0) + later;
        if !more {
          return;
        }
      }
      VisitScopesEnd(resource, i);
      assert out + ([] + Visits(traces, i + 1)) == out + Visits(traces, i + 1);
    }
    assert out + [] == out;
    AcceptedPrefix(consumer, out);
  }

  /** The innermost loop: the spans of one scope, until the consumer refuses one. */
  method IterScope(r: ResourceSpans, i: nat, j: nat, consumer: seq<Visit> -> bool, before: seq<Visit>)
      returns (out: seq<Visit>, more: bool)
    requires j < |r.scopes| && Accepted(consumer, before, |before|)
    ensures Accepted(consumer, out, if more then |out| else |out| - 1)
    ensures out <= before + VisitSpans(r, i, r.scopes[j], j, 0)
    ensures if more then out == before + VisitSpans(r, i, r.scopes[j], j, 0) else out != [] && !consumer(out)
  {
    hide VisitSpans, Accepted;
    var scope := r.scopes[j];
    out := before;
    for k := 0 to |scope.spans|
      invariant Accepted(consumer, out, |out|)
      invariant out + VisitSpans(r, i, scope, j, k) == before + VisitSpans(r, i, scope, j, 0)
    {
      var visit := Visit(r, i, scope, j, scope.spans[k]);
      VisitSpansUnfold(r, i, scope, j, k);
      AcceptedOneMore(consumer, out, visit);
      ghost var rest := VisitSpans(r, i, scope, j, k + 1);
      assert out + ([visit] + rest) == out + [visit] + rest;
      out := out + [visit];
      if !consumer(out) {
        return out, false;
      }
    }
    VisitSpansEnd(r, i, scope, j);
    assert out + [] == out;
    return out, true;
  }

  /** The trace ID of the first span, or the empty one. */
  method GetTraceID(traces: Trace) returns (id: TraceId)
    ensures id == GetTraceId(traces)
    ensures id == if Visits(traces) == [] then NO_TRACE_ID else Visits(traces)[0].span.traceId
  {
    hide Visits, Accepted;
    VisitsFlatten(traces);
    var visited := SpanIter(traces, _ => false);
    if visited != [] {
      assert visited[0] == Visits(traces)[0];
      return visited[0].span.traceId;
    }
    return NO_TRACE_ID;
  }

  // ---------- Unfolding ----------

  lemma NothingAccepted(consumer: seq<Visit> -> bool)
    ensures Accepted(consumer, [], 0)
  {}

  lemma AcceptedPrefix(consumer: seq<Visit> -> bool, out: seq<Visit>)
    requires Accepted(consumer, out, |out|)
    ensures Accepted(consumer, out, |out| - 1)
  {}

  lemma NoVisits(t: Trace)
    ensures [] + Visits(t, 0) == Visits(t) && Visits(t, |t|) == []
  {}

  lemma VisitsUnfold(t: Trace, i: nat)
    requires i < |t|
    ensures Visits(t, i) == VisitScopes(t[i], i, 0) + Visits(t, i + 1)
  {}

  lemma VisitScopesUnfold(r: ResourceSpans, i: nat, j: nat)
    requires j < |r.scopes|
    ensures forall later ::
              VisitScopes(r, i, j) + later
              == VisitSpans(r, i, r.scopes[j], j, 0) + (VisitScopes(r, i, j + 1) + later)
  {
    hide VisitSpans;
    forall later: seq<Visit>
      ensures VisitScopes(r, i, j) + later == VisitSpans(r, i, r.scopes[j], j, 0) + (VisitScopes(r, i, j + 1) + later)
    {
      var a, b := VisitSpans(r, i, r.scopes[j], j, 0), VisitScopes(r, i, j + 1);
      assert (a + b) + later == a + (b + later);
    }
  }

  lemma VisitScopesEnd(r: ResourceSpans, i: nat)
    ensures VisitScopes(r, i, |r.scopes|) == []
  {}

  lemma VisitSpansUnfold(r: ResourceSpans, i: nat, s: ScopeSpans, j: nat, k: nat)
    requires k < |s.spans|
    ensures VisitSpans(r, i, s, j, k) == [Visit(r, i, s, j, s.spans[k])] + VisitSpans(r, i, s, j, k + 1)
  {}

  lemma VisitSpansEnd(r: ResourceSpans, i: nat, s: ScopeSpans, j: nat)
    ensures VisitSpans(r, i, s, j, |s.spans|) == []
  {}

  // ---------- What is visited ----------

  function Seen(v: Visit): Placed {
    Placed(v.resource.resource, v.resource.schemaUrl, v.scope.scope, v.scope.schemaUrl, v.span)
  }

  function SeenAll(vs: seq<Visit>): (ps: seq<Placed>)
    ensures |ps| == |vs|
  {
    seq(|vs|, n requires 0 <= n < |vs| => Seen(vs[n]))
  }

  /** The position yielded with a span is where the span is. */
  predicate InPlace(t: Trace, v: Visit) {
    && v.resourceIndex < |t| && t[v.resourceIndex] == v.resource
    && v.scopeIndex < |v.resource.scopes| && v.resource.scopes[v.scopeIndex] == v.scope
    && v.span in v.scope.spans
  }

  predicate AllInPlace(t: Trace, vs: seq<Visit>) {
    forall n | 0 <= n < |vs| :: InPlace(t, vs[n])
  }

  lemma {:induction false} VisitSpansFlatten(t: Trace, i: nat, j: nat, k: nat)
    requires i < |t| && j < |t[i].scopes| && k <= |t[i].scopes[j].spans|
    ensures
      var r, s := t[i], t[i].scopes[j];
      var vs := VisitSpans(r, i, s, j, k);
      AllInPlace(t, vs) && SeenAll(vs) == PlaceSpans(r, s, s.spans[k..])
    decreases |t[i].scopes[j].spans| - k
  {
    var r, s := t[i], t[i].scopes[j];
    if k < |s.spans| {
      VisitSpansFlatten(t, i, j, k + 1);
      assert s.spans[k..][1..] == s.spans[k + 1..];
    }
  }

  lemma SeenConcat(vs: seq<Visit>, ws: seq<Visit>)
    ensures SeenAll(vs + ws) == SeenAll(vs) + SeenAll(ws)
  {}

  lemma {:induction false} VisitScopesFlatten(t: Trace, i: nat, j: nat)
    requires i < |t| && j <= |t[i].scopes|
    ensures
      var vs := VisitScopes(t[i], i, j);
      AllInPlace(t, vs) && SeenAll(vs) == PlaceScopes(t[i], t[i].scopes[j..])
    decreases |t[i].scopes| - j
  {
    hide VisitSpans, PlaceSpans, InPlace;
    if j < |t[i].scopes| {
      VisitSpansFlatten(t, i, j, 0);
      VisitScopesFlatten(t, i, j + 1);
      SeenConcat(VisitSpans(t[i], i, t[i].scopes[j], j, 0), VisitScopes(t[i], i, j + 1));
      assert t[i].scopes[j..][1..] == t[i].scopes[j + 1..];
      assert t[i].scopes[j].spans[0..] == t[i].scopes[j].spans;
    }
  }

  lemma {:induction false} VisitsFlattenFrom(t: Trace, i: nat)
    requires i <= |t|
    ensures AllInPlace(t, Visits(t, i)) && SeenAll(Visits(t, i)) == Flatten(t[i..])
    decreases |t| - i
  {
    hide VisitScopes, PlaceScopes, InPlace;
    if i < |t| {
      VisitScopesFlatten(t, i, 0);
      VisitsFlattenFrom(t, i + 1);
      SeenConcat(VisitScopes(t[i], i, 0), Visits(t, i + 1));
      assert t[i..][1..] == t[i + 1..];
      assert t[i].scopes[0..] == t[i].scopes;
    }
  }

  /** Every span is visited once, in the order of the flattened trace, with its own position. */
  lemma VisitsFlatten(t: Trace)
    ensures AllInPlace(t, Visits(t)) && SeenAll(Visits(t)) == Flatten(t)
  {
    hide Visits, Flatten, InPlace;
    VisitsFlattenFrom(t, 0);
    assert t[0..] == t;
  }

  // ---------- Which visit is which ----------

  /** How many spans come before this one. */
  function Before(t: Trace, i: nat, j: nat, k: nat): nat
    requires i < |t| && j < |t[i].scopes|
  {
    SpanCount(t[..i]) + (SpansIn(t[i].scopes[..j]) + k)
  }

  lemma {:induction false} VisitSpansAt(r: ResourceSpans, i: nat, s: ScopeSpans, j: nat, from: nat)
    requires from <= |s.spans|
    ensures |VisitSpans(r, i, s, j, from)| == |s.spans| - from
    ensures forall k | from <= k < |s.spans| ::
              VisitSpans(r, i, s, j, from)[k - from] == Visit(r, i, s, j, s.spans[k])
    decreases |s.spans| - from
  {
    if from < |s.spans| {
      VisitSpansAt(r, i, s, j, from + 1);
    }
  }

  lemma {:induction false} SpansInSlice(scopes: seq<ScopeSpans>, from: nat, j: nat)
    requires from < j <= |scopes|
    ensures SpansIn(scopes[from..j]) == |scopes[from].spans| + SpansIn(scopes[from + 1..j])
  {
    assert scopes[from..j][1..] == scopes[from + 1..j];
  }

  lemma {:induction false} VisitScopesAt(r: ResourceSpans, i: nat, from: nat, j: nat, k: nat)
    requires from <= j < |r.scopes| && k < |r.scopes[j].spans|
    ensures
      var n := SpansIn(r.scopes[from..j]) + k;
      n < |VisitScopes(r, i, from)| && VisitScopes(r, i, from)[n] == Visit(r, i, r.scopes[j], j, r.scopes[j].spans[k])
    decreases j - from
  {
    hide VisitSpans, SpansIn;
    VisitSpansAt(r, i, r.scopes[from], from, 0);
    if from < j {
      SpansInSlice(r.scopes, from, j);
      VisitScopesAt(r, i, from + 1, j, k);
    } else {
      assert r.scopes[from..j] == [];
      NoSpansIn();
    }
  }

  lemma NoSpansIn()
    ensures SpansIn([]) == 0 && SpanCount([]) == 0
  {}

  lemma {:induction false} VisitScopesCount(r: ResourceSpans, i: nat, from: nat)
    requires from <= |r.scopes|
    ensures |VisitScopes(r, i, from)| == SpansIn(r.scopes[from..])
    decreases |r.scopes| - from
  {
    hide VisitSpans;
    if from < |r.scopes| {
      VisitSpansAt(r, i, r.scopes[from], from, 0);
      VisitScopesCount(r, i, from + 1);
      assert r.scopes[from..][1..] == r.scopes[from + 1..];
    }
  }

  lemma {:induction false} VisitsAtFrom(t: Trace, from: nat, i: nat, j: nat, k: nat)
    requires from <= i < |t| && j < |t[i].scopes| && k < |t[i].scopes[j].spans|
    ensures
      var n := SpanCount(t[from..i]) + (SpansIn(t[i].scopes[..j]) + k);
      n < |Visits(t, from)| && Visits(t, from)[n] == Visit(t[i], i, t[i].scopes[j], j, t[i].scopes[j].spans[k])
    decreases i - from
  {
    hide VisitScopes, SpansIn;
    VisitScopesCount(t[from], from, 0);
    assert t[from].scopes[0..] == t[from].scopes;
    if from < i {
      assert t[from..i][1..] == t[from + 1..i];
      VisitsAtFrom(t, from + 1, i, j, k);
    } else {
      assert t[from..i] == [];
      NoSpansIn();
      VisitScopesAt(t[i], i, 0, j, k);
      assert t[i].scopes[0..j] == t[i].scopes[..j];
    }
  }

  lemma {:induction false} VisitsCountFrom(t: Trace, from: nat)
    requires from <= |t|
    ensures |Visits(t, from)| == SpanCount(t[from..])
    decreases |t| - from
  {
    hide VisitScopes, SpansIn;
    if from < |t| {
      VisitScopesCount(t[from], from, 0);
      assert t[from].scopes[0..] == t[from].scopes;
      VisitsCountFrom(t, from + 1);
      assert t[from..][1..] == t[from + 1..];
    }
  }

  /** The span at any place in the tree is visited after all that come before it, with the indices and the
      containers of its place; and there are as many visits as spans. */
  lemma VisitAt(t: Trace, i: nat, j: nat, k: nat)
    requires i < |t| && j < |t[i].scopes| && k < |t[i].scopes[j].spans|
    ensures |Visits(t)| == SpanCount(t) && Before(t, i, j, k) < |Visits(t)|
    ensures Visits(t)[Before(t, i, j, k)] == Visit(t[i], i, t[i].scopes[j], j, t[i].scopes[j].spans[k])
  {
    hide Visits, SpansIn, SpanCount;
    VisitsAtFrom(t, 0, i, j, k);
    VisitsCountFrom(t, 0);
    assert t[0..i] == t[..i] && t[0..] == t;
  }
}
