/**
 The streaming aggregator: a closure that the producer calls with each batch, and a consumer that
 may stop it at any time.
 */
module Aggregator {
  import opened Results
  import opened Wire
  import opened SpanAttributes
  import opened Traces
  import opened Grouping
  import opened Yielding
  import SpanIteration

  /** What the producer yields. */
  datatype Event = Batch(chunks: seq<Trace>) | Failure(error: string)

  /** What the aggregator yields. */
  datatype Emitted = Whole(trace: Trace) | Failed(error: string)

  // ---------- The reference: everything there is to emit, in order ----------

  /** The chunks that arrive before the producer fails, if it does. */
  function Chunks(stream: seq<Event>): seq<Trace> {
    if stream == [] || stream[0].Failure? then [] else stream[0].chunks + Chunks(stream[1..])
  }

  function FailureOf(stream: seq<Event>): Option<string> {
    if stream == [] then None
    else if stream[0].Failure? then Some(stream[0].error)
    else FailureOf(stream[1..])
  }

  function Emit(maxSize: int, gs: seq<seq<Trace>>): (es: seq<Emitted>)
    requires forall i | 0 <= i < |gs| :: gs[i] != []
    ensures |es| == |gs|
    ensures forall i | 0 <= i < |gs| :: es[i] == Whole(Limit(maxSize, gs[i]).trace)
  {
    seq(|gs|, i requires 0 <= i < |gs| => Whole(Limit(maxSize, gs[i]).trace))
  }

  /** A failure comes after the finished traces and before the pending one. */
  function Everything(maxSize: int, cs: seq<Trace>, failure: Option<string>): seq<Emitted> {
    var es := Emit(maxSize, Groups(cs));
    match failure
    case None => es
    case Some(e) => if es == [] then [Failed(e)] else es[..|es| - 1] + [Failed(e)] + es[|es| - 1..]
  }

  lemma EmitTake(maxSize: int, gs: seq<seq<Trace>>, n: nat)
    requires n <= |gs| && forall i | 0 <= i < |gs| :: gs[i] != []
    ensures Emit(maxSize, gs[..n]) == Emit(maxSize, gs)[..n]
  {}

  /** The finished groups' results are what comes first, whatever else arrives. */
  lemma FinishedComeFirst(maxSize: int, seen: seq<Trace>, rest: seq<Trace>, failure: Option<string>)
    requires Groups(seen) != []
    ensures Emit(maxSize, Groups(seen)[..|Groups(seen)| - 1]) <= Everything(maxSize, seen + rest, failure)
  {
    hide Limit, Emit, Groups;
    var gs, all := Groups(seen), Groups(seen + rest);
    GroupsGrow(seen, rest);
    EmitTake(maxSize, gs, |gs| - 1);
    EmitTake(maxSize, all, |gs| - 1);
  }

  /** An error comes as soon as it is known: in front of it is what is final, whatever might still have
      come; behind it only the pending trace, if there is one; and without it nothing is different. */
  lemma ErrorComesBetween(maxSize: int, cs: seq<Trace>, e: string, rest: seq<Trace>, failure: Option<string>)
    ensures
      var all, out := Everything(maxSize, cs, None), Everything(maxSize, cs, Some(e));
      var n := if all == [] then 0 else |all| - 1;
      |out| == |all| + 1 && out[n] == Failed(e) && out[..n] + out[n + 1..] == all
      && |out[n + 1..]| <= 1 && out[..n] <= Everything(maxSize, cs + rest, failure)
  {
    hide Limit, Emit, Groups;
    if Groups(cs) != [] {
      FinishedComeFirst(maxSize, cs, rest, failure);
      EmitTake(maxSize, Groups(cs), |Groups(cs)| - 1);
    }
  }

  // ---------- The helpers, in place of the library's slices ----------

  method MergeTraces(dest: Trace, src: Trace) returns (out: Trace)
    ensures out == dest + src
  {
    out := dest;
    assert src[..0] == [];
    for i := 0 to |src|
      invariant out == dest + src[..i]
    {
      out := out + [src[i]];
      assert src[..i + 1] == src[..i] + [src[i]];
    }
    assert src[..|src|] == src;
  }

  /** The containers are made lazily, when the first span goes into them. */
  method CopySpansUpToLimit(dest: Trace, src: Trace, limit: nat) returns (out: Trace)
    ensures out == dest + Cut(src, limit)
  {
    hide CutResource, SpansIn;
    out := dest;
    var copied: nat := 0;
    assert src[0..] == src;
    for i := 0 to |src|
      invariant copied <= limit
      invariant out + Cut(src[i..], limit - copied) == dest + Cut(src, limit)
    {
      CutOnward(src, i, limit - copied);
      if copied >= limit {
        CutNothing(src[i..]);
        assert out + [] == out;
        return;
      }
      var added;
      added, copied := CopyResource(src[i], copied, limit);
      assert out + (added + Cut(src[i + 1..], limit - copied)) == out + added + Cut(src[i + 1..], limit - copied);
      out := out + added;
    }
    assert src[|src|..] == [] && out + [] == out;
  }

  lemma CutOnward(src: Trace, i: nat, limit: nat)
    requires i < |src|
    ensures Cut(src[i..], limit)
            == CutResource(src[i], limit) + Cut(src[i + 1..], limit - Min(limit, SpansIn(src[i].scopes)))
  {
    assert src[i..][1..] == src[i + 1..];
  }

  method CopyResource(r: ResourceSpans, copied: nat, limit: nat) returns (added: Trace, copied': nat)
    requires copied < limit
    ensures added == CutResource(r, limit - copied)
    ensures copied' == copied + Min(limit - copied, SpansIn(r.scopes))
  {
    hide CutScope, CutScopes, SpansIn;
    copied' := copied;
    var resourceAdded := false;
    var destScopes: seq<ScopeSpans> := [];
    assert r.scopes[0..] == r.scopes;
    NoScopes();
    for j := 0 to |r.scopes|
      invariant copied <= copied' <= limit
      invariant resourceAdded <==> destScopes != []
      invariant destScopes + CutScopes(r.scopes[j..], limit - copied') == CutScopes(r.scopes, limit - copied)
      invariant copied' + Min(limit - copied', SpansIn(r.scopes[j..]))
                == copied + Min(limit - copied, SpansIn(r.scopes))
    {
      ScopesOnward(r.scopes, j, limit - copied');
      if copied' >= limit {
        CutNoScopes(r.scopes[j..]);
        assert destScopes + [] == destScopes;
        break;
      }
      var scope;
      scope, copied' := CopyScope(r.scopes[j], copied', limit);
      assert destScopes + (scope + CutScopes(r.scopes[j + 1..], limit - copied'))
          == destScopes + scope + CutScopes(r.scopes[j + 1..], limit - copied');
      if scope != [] {
        resourceAdded := true;
      }
      destScopes := destScopes + scope;
    }
    assert r.scopes[|r.scopes|..] == [] && destScopes + [] == destScopes;
    added := if resourceAdded then [r.(scopes := destScopes)] else [];
  }

  lemma NoScopes()
    ensures SpansIn([]) == 0
    ensures forall limit: nat :: CutScopes([], limit) == []
  {}

  lemma ScopesOnward(scopes: seq<ScopeSpans>, j: nat, limit: nat)
    requires j < |scopes|
    ensures CutScopes(scopes[j..], limit)
         == CutScope(scopes[j], limit) + CutScopes(scopes[j + 1..], limit - Min(limit, |scopes[j].spans|))
    ensures SpansIn(scopes[j..]) == |scopes[j].spans| + SpansIn(scopes[j + 1..])
  {
    assert scopes[j..][1..] == scopes[j + 1..];
  }

  lemma {:induction false} CutNoScopes(scopes: seq<ScopeSpans>)
    ensures CutScopes(scopes, 0) == []
  {
    if scopes != [] {
      CutNoScopes(scopes[1..]);
    }
  }

  method CopyScope(s: ScopeSpans, copied: nat, limit: nat) returns (added: seq<ScopeSpans>, copied': nat)
    requires copied < limit
    ensures added == CutScope(s, limit - copied)
    ensures copied' == copied + Min(limit - copied, |s.spans|)
  {
    copied' := copied;
    var scopeAdded := false;
    var destSpans: seq<Span> := [];
    for k := 0 to |s.spans|
      invariant copied' == copied + k <= limit
      invariant destSpans == s.spans[..k] && (scopeAdded <==> k > 0)
    {
      if copied' >= limit {
        break;
      }
      scopeAdded := true;
      destSpans := destSpans + [s.spans[k]];
      copied' := copied' + 1;
    }
    added := if scopeAdded then [s.(spans := destSpans)] else [];
  }

  /** Merges a chunk into the current trace, within the limit. */
  method MergeTracesWithLimit(dest: Trace, destCount: nat, src: Trace, srcCount: nat, maxSize: int)
    returns (out: Trace, count: nat, truncated: bool)
    requires srcCount == SpanCount(src)
    ensures var fits := maxSize <= 0 || destCount + srcCount <= maxSize;
            var full := maxSize > 0 && destCount >= maxSize;
            (out, count, truncated)
            == if full then (dest, destCount, true)
               else if fits then (dest + src, destCount + srcCount, false)
               else (dest + Cut(src, maxSize - destCount), maxSize, true)
  {
    if maxSize > 0 && destCount >= maxSize {
      return dest, destCount, true;
    }
    if maxSize <= 0 || destCount + srcCount <= maxSize {
      out := MergeTraces(dest, src);
      return out, destCount + srcCount, false;
    }
    out := CopySpansUpToLimit(dest, src, maxSize - destCount);
    return out, maxSize, true;
  }

  /** Visits the spans in order and stops after the first. */
  method MarkTraceTruncated(trace: Trace, maxSize: nat) returns (out: Trace)
    ensures out == MarkFirst(trace, TruncationWarning(maxSize))
  {
    hide TruncationWarning, MarkFirst, MarkScopes, SpansIn;
    MarkNothing();
    var warning := TruncationWarning(maxSize);
    assert trace[0..] == trace && trace[..0] == [];
    for i := 0 to |trace|
      invariant MarkFirst(trace, warning) == trace[..i] + MarkFirst(trace[i..], warning)
    {
      MarkOnward(trace, i, warning);
      var found, scopes := MarkFirstIn(trace[i].scopes, warning);
      if found {
        out := trace[i := trace[i].(scopes := scopes)];
        PieceTogether(trace, i, trace[i].(scopes := scopes), trace[i + 1..]);
        return;
      }
      PieceTogether(trace, i, trace[i], MarkFirst(trace[i + 1..], warning));
    }
    assert trace[|trace|..] == [] && trace[..|trace|] == trace;
    out := trace;
  }

  method MarkFirstIn(scopes: seq<ScopeSpans>, warning: Bytes) returns (found: bool, out: seq<ScopeSpans>)
    ensures found <==> SpansIn(scopes) != 0
    ensures found ==> out == MarkScopes(scopes, warning)
  {
    hide WithWarnings, MarkScopes, SpansIn;
    assert scopes[0..] == scopes && scopes[..0] == [];
    NoScopes();
    for j := 0 to |scopes|
      invariant MarkScopes(scopes, warning) == scopes[..j] + MarkScopes(scopes[j..], warning)
      invariant SpansIn(scopes) == SpansIn(scopes[j..])
    {
      MarkScopesOnward(scopes, j, warning);
      if scopes[j].spans != [] {
        var s := scopes[j];
        var attributes := AddWarnings(s.spans[0].attributes, [warning]);
        out := scopes[j := s.(spans := s.spans[0 := s.spans[0].(attributes := attributes)])];
        assert out[j].spans == [AddWarning(s.spans[0], warning)] + s.spans[1..];
        assert out == scopes[..j] + [out[j]] + scopes[j + 1..];
        return true, out;
      }
      assert scopes[..j + 1] == scopes[..j] + [scopes[j]];
    }
    assert scopes[|scopes|..] == [];
    return false, scopes;
  }

  lemma PieceTogether(trace: Trace, i: nat, r: ResourceSpans, rest: Trace)
    requires i < |trace|
    ensures trace[..i] + ([r] + trace[i + 1..]) == trace[i := r]
    ensures r == trace[i] ==> trace[..i] + ([r] + rest) == trace[..i + 1] + rest
  {}

  lemma MarkNothing()
    ensures forall warning :: MarkFirst([], warning) == []
  {}

  lemma MarkOnward(trace: Trace, i: nat, warning: Bytes)
    requires i < |trace|
    ensures MarkFirst(trace[i..], warning)
         == if SpansIn(trace[i].scopes) == 0 then [trace[i]] + MarkFirst(trace[i + 1..], warning)
            else [trace[i].(scopes := MarkScopes(trace[i].scopes, warning))] + trace[i + 1..]
  {
    assert trace[i..][1..] == trace[i + 1..];
  }

  lemma MarkScopesOnward(scopes: seq<ScopeSpans>, j: nat, warning: Bytes)
    requires j < |scopes|
    ensures SpansIn(scopes[j..]) == |scopes[j].spans| + SpansIn(scopes[j + 1..])
    ensures
      var s := scopes[j];
      MarkScopes(scopes[j..], warning) ==
        if s.spans == [] then [s] + MarkScopes(scopes[j + 1..], warning)
        else [s.(spans := [AddWarning(s.spans[0], warning)] + s.spans[1..])] + scopes[j + 1..]
  {
    assert scopes[j..][1..] == scopes[j + 1..];
  }

  // ---------- The closure ----------

  class Aggregation {
    const maxSize: int
    const consumer: seq<Emitted> -> bool
    var currentTrace: Trace
    var currentTraceId: TraceId
    var currentSpanCount: nat
    var currentTruncated: bool
    var cont: bool
    var out: seq<Emitted>
    ghost var seen: seq<Trace>

    constructor (maxSize: int, consumer: seq<Emitted> -> bool)
      ensures Accumulating() && seen == [] && out == []
      ensures this.maxSize == maxSize && this.consumer == consumer
    {
      this.maxSize, this.consumer := maxSize, consumer;
      currentTrace, currentTraceId, currentSpanCount, currentTruncated := [], NO_TRACE_ID, 0, false;
      cont, out, seen := true, [], [];
    }

    /** The finished groups have been emitted and accepted; the last one is being accumulated. */
    ghost predicate Accumulating()
      reads this
    {
      var gs := Groups(seen);
      && cont && Accepted(consumer, out, |out|)
      && if gs == [] then Nothing() && out == []
         else Holds(gs[|gs| - 1]) && out == Emit(maxSize, gs[..|gs| - 1])
    }

    ghost predicate Nothing()
      reads this`currentTrace, this`currentTraceId, this`currentSpanCount, this`currentTruncated
    {
      currentTrace == [] && currentTraceId == NO_TRACE_ID && currentSpanCount == 0 && !currentTruncated
    }

    ghost predicate Holds(g: seq<Trace>)
      requires g != []
      reads this`currentTrace, this`currentTraceId, this`currentSpanCount, this`currentTruncated
    {
      && Limited(currentTrace, currentSpanCount, currentTruncated) == Limit(maxSize, g)
      && currentTraceId == GetTraceId(g[0])
      && currentSpanCount > 0
    }

    /** Hands one output to the consumer. */
    method Yield(e: Emitted) returns (more: bool)
      modifies this`out
      ensures out == old(out) + [e] && more == consumer(out)
    {
      out := out + [e];
      more := consumer(out);
    }

    /** A chunk of the current trace.  Before anything has arrived the current trace is empty, and
        its ID is the empty one. */
    method Continue(trace: Trace, ghost g: seq<Trace>)
      requires if g == [] then Nothing() else Holds(g)
      requires currentTraceId == GetTraceId(trace) && SpanCount(trace) > 0
      modifies this`currentTrace, this`currentSpanCount, this`currentTruncated
      ensures Holds(g + [trace])
    {
      hide SpanCount, Cut, MarkFirst, GetTraceId, TruncationWarning;
      assert (g + [trace])[..|g|] == g;
      var incomingSpanCount := SpanCount(trace);
      var truncated;
      assert [] + trace == trace && (maxSize > 0 ==> [] + Cut(trace, maxSize) == Cut(trace, maxSize));
      currentTrace, currentSpanCount, truncated :=
        MergeTracesWithLimit(currentTrace, currentSpanCount, trace, incomingSpanCount, maxSize);
      if truncated && !currentTruncated {
        currentTrace := MarkTraceTruncated(currentTrace, maxSize);
        currentTruncated := true;
      }
    }

    /** The first chunk of another trace. */
    method Begin(trace: Trace, traceId: TraceId)
      requires SpanCount(trace) > 0 && traceId == GetTraceId(trace)
      modifies this`currentTrace, this`currentTraceId, this`currentSpanCount, this`currentTruncated
      ensures Holds([trace])
    {
      hide SpanCount, Cut, MarkFirst, GetTraceId, TruncationWarning;
      currentTraceId := traceId;
      currentTruncated := false;
      if maxSize > 0 && SpanCount(trace) > maxSize {
        currentTrace := CopySpansUpToLimit([], trace, maxSize);
        assert [] + Cut(trace, maxSize) == Cut(trace, maxSize);
        currentSpanCount := maxSize;
        currentTrace := MarkTraceTruncated(currentTrace, maxSize);
        currentTruncated := true;
      } else {
        currentTrace := trace;
        currentSpanCount := SpanCount(trace);
      }
    }

    /** The consumer refused the result of the last finished group. */
    ghost predicate Refused(before: seq<Trace>)
      reads this
    {
      && !cont && out == Emit(maxSize, Groups(before)) && out != []
      && Accepted(consumer, out, |out| - 1) && !consumer(out)
    }

    /** Yields the finished group. */
    method EmitCurrent(ghost gs: seq<seq<Trace>>) returns (accepted: bool)
      requires gs != [] && (forall i | 0 <= i < |gs| :: gs[i] != [])
      requires Holds(gs[|gs| - 1]) && out == Emit(maxSize, gs[..|gs| - 1]) && Accepted(consumer, out, |out|)
      modifies this`out
      ensures out == Emit(maxSize, gs) && out != []
      ensures Accepted(consumer, out, if accepted then |out| else |out| - 1) && (!accepted ==> !consumer(out))
    {
      hide Limit, Emit;
      ghost var before := out;
      EmitTake(maxSize, gs, |gs| - 1);
      accepted := Yield(Whole(currentTrace));
      assert forall i | 0 < i <= |before| :: out[..i] == before[..i];
      assert out[..|out|] == out;
    }

    /** One chunk of a batch. */
    method OnTrace(trace: Trace) returns (more: bool)
      requires Accumulating()
      modifies this
      ensures seen == old(seen) + [trace]
      ensures more ==> Accumulating()
      ensures !more ==> Refused(old(seen))
      ensures !more ==> Groups(seen) != [] && Groups(seen)[..|Groups(seen)| - 1] == Groups(old(seen))
    {
      hide SpanCount, GetTraceId, Groups, AddChunk, Emit, Accepted, Accumulating, Holds, Nothing, SpanIteration.Visits;
      ghost var gs := Groups(seen);
      ghost var before := if gs == [] then [] else gs[..|gs| - 1];
      WhatIsHeld();
      GroupsOneMore(seen, trace);
      AddChunkCases(gs, trace);
      seen := seen + [trace];
      if SpanCount(trace) == 0 {
        StillTheSame();
        return true;
      }
      var traceId := SpanIteration.GetTraceID(trace);
      if currentTraceId == traceId {
        Continue(trace, if gs == [] then [] else gs[|gs| - 1]);
        assert [] + [trace] == [trace];
        StillAccumulating(before, if gs == [] then [trace] else gs[|gs| - 1] + [trace]);
        return true;
      }
      if currentSpanCount > 0 {
        var accepted := EmitCurrent(gs);
        if !accepted {
          cont := false;
          return false;
        }
      }
      Begin(trace, traceId);
      StillAccumulating(gs, [trace]);
      return true;
    }

    lemma WhatIsHeld()
      requires Accumulating()
      ensures
        var gs := Groups(seen);
        cont && Accepted(consumer, out, |out|)
        && out == Emit(maxSize, if gs == [] then [] else gs[..|gs| - 1])
        && if gs == [] then Nothing() && currentSpanCount == 0 && currentTraceId == NO_TRACE_ID
           else Holds(gs[|gs| - 1]) && currentSpanCount > 0 && currentTraceId == GetTraceId(gs[|gs| - 1][0])
    {
      hide Groups, GetTraceId, Accepted, Limit;
    }

    lemma StillAccumulating(front: seq<seq<Trace>>, g: seq<Trace>)
      requires g != [] && (forall i | 0 <= i < |front| :: front[i] != []) && Groups(seen) == front + [g]
      requires cont && Accepted(consumer, out, |out|) && Holds(g) && out == Emit(maxSize, front)
      ensures Accumulating()
    {
      hide Groups, Accepted, Holds, Emit;
      assert (front + [g])[..|front|] == front;
    }

    twostate lemma StillTheSame()
      requires old(Accumulating()) && Groups(seen) == old(Groups(seen))
      requires cont == old(cont) && out == old(out) && currentTrace == old(currentTrace)
      requires currentTraceId == old(currentTraceId) && currentSpanCount == old(currentSpanCount)
      requires currentTruncated == old(currentTruncated)
      ensures Accumulating()
    {
      hide Groups, Accepted, Limit, Emit, GetTraceId;
    }

    /** The callback on a batch: chunk after chunk, until the consumer refuses. */
    method OnBatch(traces: seq<Trace>) returns (more: bool, ghost rest: seq<Trace>)
      requires Accumulating()
      modifies this
      ensures seen + rest == old(seen) + traces
      ensures more ==> Accumulating() && rest == []
      ensures !more ==> Stopped()
    {
      hide Accumulating, SpanCount, Groups, Emit, Refused;
      rest := traces;
      assert traces[0..] == traces;
      for i := 0 to |traces|
        invariant Accumulating() && rest == traces[i..] && seen + rest == old(seen) + traces
      {
        ghost var before := seen;
        more := OnTrace(traces[i]);
        assert rest == [traces[i]] + traces[i + 1..];
        assert before + [traces[i]] + traces[i + 1..] == before + ([traces[i]] + traces[i + 1..]);
        rest := traces[i + 1..];
        if !more {
          return;
        }
      }
      return true, [];
    }

    /** The consumer refused a finished trace when the chunk after it arrived. */
    ghost predicate Stopped()
      reads this
    {
      exists before :: Refused(before) && Groups(seen) != [] && Groups(seen)[..|Groups(seen)| - 1] == Groups(before)
    }

    /** Nothing that could still arrive changes what the consumer was given. */
    lemma StopIsFinal(rest: seq<Trace>, failure: Option<string>)
      requires Stopped()
      ensures AtEnd(Everything(maxSize, seen + rest, failure))
    {
      hide Groups, Emit, Everything;
      FinishedComeFirst(maxSize, seen, rest, failure);
    }

    /** Nothing more comes from the producer: what is left is the pending trace, if there is one and
        the consumer still listens. */
    ghost predicate AtEnd(all: seq<Emitted>)
      reads this
    {
      if !cont then Delivered(consumer, out, all)
      else Accepted(consumer, out, |out|) && all == out + (if currentSpanCount > 0 then [Whole(currentTrace)] else [])
    }

    /** The callback on an error: it is passed on, and the producer is told to stop. */
    method OnError(err: string)
      requires Accumulating()
      modifies this`out, this`cont
      ensures AtEnd(Everything(maxSize, seen, Some(err)))
    {
      hide Everything, Accumulating, Accepted;
      EverythingWithError(err);
      AcceptedOneMore(consumer, out, Failed(err));
      cont := Yield(Failed(err));
    }

    lemma EverythingWithError(err: string)
      requires Accumulating()
      ensures cont && Accepted(consumer, out, |out|)
      ensures Everything(maxSize, seen, Some(err))
           == out + [Failed(err)] + (if currentSpanCount > 0 then [Whole(currentTrace)] else [])
    {
      hide Limit, Groups, Emit, Accepted;
      var gs := Groups(seen);
      if gs != [] {
        var es := Emit(maxSize, gs);
        EmitTake(maxSize, gs, |gs| - 1);
        assert es[|es| - 1..] == [Whole(currentTrace)];
      }
    }

    lemma AtEndOfStream()
      requires Accumulating()
      ensures AtEnd(Everything(maxSize, seen, None))
    {
      hide Limit, Groups, Emit;
      var gs := Groups(seen);
      if gs != [] {
        EmitTake(maxSize, gs, |gs| - 1);
        assert Emit(maxSize, gs) == out + [Whole(currentTrace)];
      }
    }

    /** The whole aggregation.  The consumer is given exactly what there is to give, in order, up
        to the first output it refuses: it is never called after refusing, an error reaches it once,
        and the pending trace comes last, after the error only if that was accepted. */
    method Run(stream: seq<Event>)
      requires Accumulating() && seen == [] && out == []
      modifies this
      ensures Delivered(consumer, out, Everything(maxSize, Chunks(stream), FailureOf(stream)))
    {
      hide Accumulating, Everything, AtEnd, Chunks, FailureOf, Stopped, Delivered;
      ghost var all := Everything(maxSize, Chunks(stream), FailureOf(stream));
      var i, more := 0, true;
      assert stream[0..] == stream && [] + Chunks(stream) == Chunks(stream);
      while i < |stream| && more
        invariant 0 <= i <= |stream|
        invariant more ==>
                    Accumulating() && Chunks(stream) == seen + Chunks(stream[i..])
                      && FailureOf(stream) == FailureOf(stream[i..])
        invariant !more ==> AtEnd(all)
        decreases |stream| - i
      {
        StreamOnward(stream, i);
        match stream[i] {
          case Batch(chunks) =>
            ghost var before, later := seen, Chunks(stream[i + 1..]);
            ghost var rest;
            more, rest := OnBatch(chunks);
            Reassociate(before, chunks, later, seen, rest);
            if !more {
              StopIsFinal(rest + later, FailureOf(stream));
            }
          case Failure(err) =>
            OnError(err);
            more := false;
        }
        i := i + 1;
      }
      if more {
        assert stream[i..] == [];
        NoMore(seen);
        AtEndOfStream();
      }
      Finish(all);
    }

    lemma Reassociate(before: seq<Trace>, chunks: seq<Trace>, later: seq<Trace>, now: seq<Trace>, rest: seq<Trace>)
      requires now + rest == before + chunks
      ensures before + (chunks + later) == now + (rest + later)
      ensures rest == [] ==> rest + later == later
    {
      assert before + (chunks + later) == before + chunks + later;
      assert now + (rest + later) == now + rest + later;
    }

    lemma NoMore(cs: seq<Trace>)
      ensures cs + Chunks([]) == cs && FailureOf([]) == None
    {}

    lemma StreamOnward(stream: seq<Event>, i: nat)
      requires i < |stream|
      ensures stream[i].Batch? ==>
                Chunks(stream[i..]) == stream[i].chunks + Chunks(stream[i + 1..])
                && FailureOf(stream[i..]) == FailureOf(stream[i + 1..])
      ensures stream[i].Failure?
              ==> seen + Chunks(stream[i..]) == seen && FailureOf(stream[i..]) == Some(stream[i].error)
    {
      assert stream[i..][1..] == stream[i + 1..];
    }

    /** After the producer is done: the pending trace, unless the consumer has refused something. */
    method Finish(ghost all: seq<Emitted>)
      requires AtEnd(all)
      modifies this`out
      ensures Delivered(consumer, out, all)
    {
      ghost var before := out;
      if cont && currentSpanCount > 0 {
        var _ := Yield(Whole(currentTrace));
        assert forall i | 0 < i <= |before| :: out[..i] == before[..i];
      }
    }
  }

  // ---------- What the consumer gets, over whole streams ----------

  /** `b` is `a` cut to `maxSize` spans, with a warning when that lost any. */
  predicate CutTo(maxSize: int, a: Emitted, b: Emitted) {
    match a
    case Failed(_) => b == a
    case Whole(t) =>
      var all := Flatten(t);
      b.Whole? && Flatten(b.trace)
          == if 0 < maxSize < |all| then WarnFirst(all[..maxSize], TruncationWarning(maxSize)) else all
  }

  /** On every stream, a limited aggregation gives what an unlimited one gives, output by output,
      each trace cut to its first spans. */
  lemma LimitedStreamIsCutStream(maxSize: int, cs: seq<Trace>, failure: Option<string>)
    ensures |Everything(maxSize, cs, failure)| == |Everything(0, cs, failure)|
    ensures forall i | 0 <= i < |Everything(0, cs, failure)| ::
              CutTo(maxSize, Everything(0, cs, failure)[i], Everything(maxSize, cs, failure)[i])
  {
    hide Groups, Limit, Flatten, CutTo;
    var gs := Groups(cs);
    var a, b := Emit(0, gs), Emit(maxSize, gs);
    GroupsHaveSpans(cs);
    forall i | 0 <= i < |gs| ensures CutTo(maxSize, a[i], b[i]) {
      GroupIsCut(maxSize, gs[i]);
    }
    if failure.Some? {
      FailureIsCut(maxSize, failure.value);
    }
  }

  lemma GroupIsCut(maxSize: int, g: seq<Trace>)
    requires g != [] && forall c <- g :: SpanCount(c) > 0
    ensures CutTo(maxSize, Whole(Limit(0, g).trace), Whole(Limit(maxSize, g).trace))
  {
    hide Limit, Flatten;
    LimitRefinesTruncation(maxSize, g);
  }

  lemma FailureIsCut(maxSize: int, e: string)
    ensures CutTo(maxSize, Failed(e), Failed(e))
  {}

  /** Without a limit, an error or a refusal, and with one trace ID a chunk, the outputs are the
      maximal runs of the input's spans: every span comes out, in order, in the trace it belongs
      to, however the runs were split into chunks and batches. */
  lemma UnlimitedStreamIsRuns(cs: seq<Trace>)
    requires forall i | 0 <= i < |cs| :: Uniform(Flatten(cs[i]))
    ensures |Everything(0, cs, None)| == |Runs(FlattenAll(cs))|
    ensures forall i | 0 <= i < |Everything(0, cs, None)| ::
              Everything(0, cs, None)[i].Whole? && Flatten(Everything(0, cs, None)[i].trace) == Runs(FlattenAll(cs))[i]
    ensures IsRunPartition(Runs(FlattenAll(cs)), FlattenAll(cs))
  {
    hide Groups, Limit, Flatten, Runs, IsRunPartition, Uniform, SpanCount;
    var gs := Groups(cs);
    GroupsAreRuns(cs);
    GroupsHaveSpans(cs);
    RunsPartition(FlattenAll(cs));
    forall i | 0 <= i < |gs| ensures Limit(0, gs[i]).trace == Concat(gs[i]) {
      LimitIsCut(0, gs[i]);
    }
  }
}
