/**
 What the aggregator is for, said without its state: chunks are grouped by runs of equal trace
 ID, each group is limited, and the consumer sees the results until it refuses one.
 */
module Grouping {
  import opened Wire
  import opened Utf8
  import opened SpanAttributes
  import opened Traces

  // ---------- Groups of chunks ----------

  /** The items go to the last group, or to a new one. */
  function Extend<T>(gs: seq<seq<T>>, join: bool, items: seq<T>): (r: seq<seq<T>>)
    requires join ==> gs != []
    ensures |r| == if join then |gs| else |gs| + 1
    ensures r[..|r| - 1] == if join then gs[..|gs| - 1] else gs
    ensures r[|r| - 1] == if join then gs[|gs| - 1] + items else items
    ensures (forall i | 0 <= i < |gs| :: gs[i] != []) && items != [] ==> forall i | 0 <= i < |r| :: r[i] != []
  {
    if join then gs[..|gs| - 1] + [gs[|gs| - 1] + items] else gs + [items]
  }

  /** Maximal runs of chunks with the same trace ID, chunks without spans left out. */
  function Groups(cs: seq<Trace>): (gs: seq<seq<Trace>>)
    ensures forall i | 0 <= i < |gs| :: gs[i] != []
  {
    if cs == [] then [] else AddChunk(Groups(cs[..|cs| - 1]), cs[|cs| - 1])
  }

  function AddChunk(gs: seq<seq<Trace>>, c: Trace): (r: seq<seq<Trace>>)
    requires forall i | 0 <= i < |gs| :: gs[i] != []
    ensures forall i | 0 <= i < |r| :: r[i] != []
  {
    if SpanCount(c) == 0 then gs
    else Extend(gs, gs != [] && GetTraceId(gs[|gs| - 1][0]) == GetTraceId(c), [c])
  }

  function Concat(g: seq<Trace>): Trace {
    if g == [] then [] else Concat(g[..|g| - 1]) + g[|g| - 1]
  }

  /** Every chunk that made it into a group has spans. */
  lemma {:induction false} GroupsHaveSpans(cs: seq<Trace>)
    ensures forall i, j | 0 <= i < |Groups(cs)| && 0 <= j < |Groups(cs)[i]| :: SpanCount(Groups(cs)[i][j]) > 0
  {
    hide SpanCount, GetTraceId, Extend;
    if cs != [] {
      GroupsHaveSpans(cs[..|cs| - 1]);
      var gs, gs' := Groups(cs[..|cs| - 1]), Groups(cs);
      assert forall i | 0 <= i < |gs'| - 1 :: gs'[i] == gs'[..|gs'| - 1][i];
    }
  }

  lemma GroupsOneMore(seen: seq<Trace>, c: Trace)
    ensures Groups(seen + [c]) == AddChunk(Groups(seen), c)
  {
    hide AddChunk;
    assert (seen + [c])[..|seen|] == seen;
  }

  lemma AddChunkCases(gs: seq<seq<Trace>>, c: Trace)
    requires forall i | 0 <= i < |gs| :: gs[i] != []
    ensures SpanCount(c) == 0 ==> AddChunk(gs, c) == gs
    ensures
      SpanCount(c) > 0 ==>
        if gs != [] && GetTraceId(gs[|gs| - 1][0]) == GetTraceId(c) then
          AddChunk(gs, c) == gs[..|gs| - 1] + [gs[|gs| - 1] + [c]]
        else AddChunk(gs, c) == gs + [[c]]
  {
    hide SpanCount, GetTraceId;
  }

  /** What comes later only extends the last group or opens new ones. */
  lemma {:induction false} GroupsGrow(cs: seq<Trace>, ds: seq<Trace>)
    ensures |Groups(cs)| <= |Groups(cs + ds)|
    ensures Groups(cs) != [] ==> Groups(cs + ds)[..|Groups(cs)| - 1] == Groups(cs)[..|Groups(cs)| - 1]
    decreases |ds|
  {
    hide Groups, SpanCount, GetTraceId, Extend;
    if ds == [] {
      assert cs + ds == cs;
    } else {
      GroupsGrow(cs, ds[..|ds| - 1]);
      GroupsOneMore(cs + ds[..|ds| - 1], ds[|ds| - 1]);
      assert cs + ds[..|ds| - 1] + [ds[|ds| - 1]] == cs + ds;
    }
  }

  // ---------- Limiting a group ----------

  function TruncationWarning(maxSize: nat): Bytes {
    Text("trace has more than " + Decimal(maxSize) + " spans, showing first " + Decimal(maxSize) + " spans only")
  }

  lemma TruncationWarningOfSeven()
    ensures TruncationWarning(7) == Text("trace has more than 7 spans, showing first 7 spans only")
  {
    hide Text;
    assert Decimal(7) == "7";
    assert "trace has more than " + "7" + " spans, showing first " + "7" + " spans only"
        == "trace has more than 7 spans, showing first 7 spans only";
  }

  /** The trace being accumulated, how many spans it has, and whether it has been marked. */
  datatype Limited = Limited(trace: Trace, count: nat, truncated: bool)

  function FirstChunk(maxSize: int, c: Trace): Limited {
    if maxSize > 0 && SpanCount(c) > maxSize then
      Limited(MarkFirst(Cut(c, maxSize), TruncationWarning(maxSize)), maxSize, true)
    else Limited(c, SpanCount(c), false)
  }

  function NextChunk(maxSize: int, l: Limited, c: Trace): Limited {
    if maxSize > 0 && l.count >= maxSize then
      Limited(if l.truncated then l.trace else MarkFirst(l.trace, TruncationWarning(maxSize)), l.count, true)
    else if maxSize <= 0 || l.count + SpanCount(c) <= maxSize then
      Limited(l.trace + c, l.count + SpanCount(c), l.truncated)
    else
      var t := l.trace + Cut(c, maxSize - l.count);
      Limited(if l.truncated then t else MarkFirst(t, TruncationWarning(maxSize)), maxSize, true)
  }

  function Limit(maxSize: int, g: seq<Trace>): Limited
    requires g != []
  {
    if |g| == 1 then FirstChunk(maxSize, g[0]) else NextChunk(maxSize, Limit(maxSize, g[..|g| - 1]), g[|g| - 1])
  }

  /** The reference: whole chunks while they fit, and of the first that does not, the spans that
      still do. */
  function CutGroup(limit: nat, g: seq<Trace>): Trace {
    if g == [] then []
    else if SpanCount(g[0]) <= limit then g[0] + CutGroup(limit - SpanCount(g[0]), g[1..])
    else Cut(g[0], limit)
  }

  function Total(g: seq<Trace>): nat {
    if g == [] then 0 else SpanCount(g[0]) + Total(g[1..])
  }

  lemma {:induction false} TotalSnoc(g: seq<Trace>, c: Trace)
    ensures Total(g + [c]) == Total(g) + SpanCount(c)
  {
    hide SpanCount;
    if g == [] {
      assert [c][1..] == [] && g + [c] == [c];
    } else {
      TotalSnoc(g[1..], c);
      assert (g + [c])[1..] == g[1..] + [c];
    }
  }

  lemma {:induction false} CutGroupSnoc(limit: nat, g: seq<Trace>, c: Trace)
    ensures CutGroup(limit, g + [c])
         == if Total(g) > limit then CutGroup(limit, g)
            else CutGroup(limit, g) + (if SpanCount(c) <= limit - Total(g) then c else Cut(c, limit - Total(g)))
  {
    hide SpanCount, Cut;
    if g == [] {
      assert g + [c] == [c] && [c][1..] == [] && c + [] == c && [] + c == c;
      assert [] + Cut(c, limit) == Cut(c, limit);
    } else {
      assert (g + [c])[1..] == g[1..] + [c];
      if SpanCount(g[0]) <= limit {
        var left := limit - SpanCount(g[0]);
        CutGroupSnoc(left, g[1..], c);
        var more :=
          if SpanCount(c) <= limit - Total(g) then c
          else if Total(g) <= limit then Cut(c, limit - Total(g))
          else [];
        assert g[0] + (CutGroup(left, g[1..]) + more) == g[0] + CutGroup(left, g[1..]) + more;
      }
    }
  }

  lemma {:induction false} CutGroupWhole(limit: nat, g: seq<Trace>)
    requires Total(g) <= limit
    ensures CutGroup(limit, g) == Concat(g)
    decreases |g|
  {
    hide SpanCount, Cut;
    if g != [] {
      var init, last := g[..|g| - 1], g[|g| - 1];
      assert init + [last] == g;
      TotalSnoc(init, last);
      CutGroupWhole(limit, init);
      CutGroupSnoc(limit, init, last);
    }
  }

  lemma CutNothing(t: Trace)
    ensures Cut(t, 0) == []
  {
    CutFlattens(t, 0);
    CutLeavesNoneEmpty(t, 0);
    if Cut(t, 0) != [] {
      HasSpan(Cut(t, 0));
    }
  }

  lemma HasSpan(t: Trace)
    requires NoEmptyContainers(t) && t != []
    ensures Flatten(t) != []
  {
    assert t[0] in t && t[0].scopes[0] in t[0].scopes;
  }

  /** The accumulated trace is the whole group when it fits, and otherwise the cut group, marked
      once. */
  lemma {:induction false} LimitIsCut(maxSize: int, g: seq<Trace>)
    requires g != [] && forall c <- g :: SpanCount(c) > 0
    ensures maxSize <= 0 || Total(g) <= maxSize ==> Limit(maxSize, g) == Limited(Concat(g), Total(g), false)
    ensures 0 < maxSize < Total(g) ==>
              Limit(maxSize, g) == Limited(MarkFirst(CutGroup(maxSize, g), TruncationWarning(maxSize)), maxSize, true)
    decreases |g|
  {
    hide SpanCount, Cut, MarkFirst, TruncationWarning;
    var init, last := g[..|g| - 1], g[|g| - 1];
    assert init + [last] == g;
    TotalSnoc(init, last);
    if maxSize > 0 {
      CutGroupSnoc(maxSize, init, last);
      CutNothing(last);
    }
    if |g| == 1 {
      assert init == [] && [] + g[0] == g[0];
      assert maxSize > 0 ==> [] + Cut(last, maxSize) == Cut(last, maxSize);
    } else {
      LimitIsCut(maxSize, init);
      if maxSize > 0 && Total(init) <= maxSize {
        CutGroupWhole(maxSize, init);
        assert Concat(init) + [] == Concat(init);
      }
    }
  }

  lemma {:induction false} CutGroupFlattens(limit: nat, g: seq<Trace>)
    ensures Flatten(CutGroup(limit, g)) == Flatten(Concat(g))[..Min(limit, |Flatten(Concat(g))|)]
  {
    hide SpanCount, Cut, Flatten;
    if g == [] {
      assert Flatten([]) == [] by { FlattenNothing(); }
    } else {
      var rest := Concat(g[1..]);
      ConcatCons(g);
      FlattenConcat(g[0], rest);
      SpanCountIsFlat(g[0]);
      TakeConcat(Flatten(g[0]), Flatten(rest), limit);
      if SpanCount(g[0]) <= limit {
        CutGroupFlattens(limit - SpanCount(g[0]), g[1..]);
        FlattenConcat(g[0], CutGroup(limit - SpanCount(g[0]), g[1..]));
        assert Flatten(g[0])[..Min(limit, |Flatten(g[0])|)] == Flatten(g[0]);
      } else {
        CutFlattens(g[0], limit);
        assert Flatten(rest)[..0] == [];
      }
    }
  }

  lemma {:induction false} ConcatCons(g: seq<Trace>)
    requires g != []
    ensures Concat(g) == g[0] + Concat(g[1..])
    decreases |g|
  {
    if |g| == 1 {
      assert g[..0] == [] && [] + g[0] == g[0] + [];
    } else {
      var init, last := g[..|g| - 1], g[|g| - 1];
      ConcatCons(init);
      assert g[1..][..|g| - 2] == init[1..] && g[1..][|g| - 2] == last;
      assert g[0] + Concat(init[1..]) + last == g[0] + (Concat(init[1..]) + last);
    }
  }

  lemma {:induction false} TotalIsFlat(g: seq<Trace>)
    ensures Total(g) == |Flatten(Concat(g))|
  {
    hide SpanCount, Flatten;
    if g == [] {
      FlattenNothing();
    } else {
      TotalIsFlat(g[1..]);
      ConcatCons(g);
      FlattenConcat(g[0], Concat(g[1..]));
      SpanCountIsFlat(g[0]);
    }
  }

  /** Limiting refines truncation: what a limited aggregation emits for a group is what an
      unlimited one emits, cut to its first `maxSize` spans with their containers, with one
      warning on the first span exactly when something was cut. */
  lemma LimitRefinesTruncation(maxSize: int, g: seq<Trace>)
    requires g != [] && forall c <- g :: SpanCount(c) > 0
    ensures var all := Flatten(Limit(0, g).trace);
            Flatten(Limit(maxSize, g).trace)
            == if 0 < maxSize < |all| then WarnFirst(all[..maxSize], TruncationWarning(maxSize)) else all
  {
    hide SpanCount, Cut, MarkFirst, Flatten, CutGroup, Limit, TruncationWarning;
    LimitIsCut(0, g);
    LimitIsCut(maxSize, g);
    TotalIsFlat(g);
    if 0 < maxSize < Total(g) {
      CutGroupFlattens(maxSize, g);
      MarkFirstFlattens(CutGroup(maxSize, g), TruncationWarning(maxSize));
    }
  }

  /** The partial copy brings no empty container into the trace: what follows the whole chunks has
      none. */
  lemma {:induction false} CutGroupShape(limit: nat, g: seq<Trace>) returns (whole: nat, tail: Trace)
    ensures whole <= |g| && NoEmptyContainers(tail)
    ensures CutGroup(limit, g) == Concat(g[..whole]) + tail
    decreases |g|
  {
    hide SpanCount, Cut;
    whole, tail := 0, [];
    if g != [] {
      if SpanCount(g[0]) <= limit {
        whole, tail := CutGroupShape(limit - SpanCount(g[0]), g[1..]);
        whole := whole + 1;
        ConcatCons(g[..whole]);
        assert g[..whole][1..] == g[1..][..whole - 1];
        assert g[0] + (Concat(g[1..][..whole - 1]) + tail) == g[0] + Concat(g[1..][..whole - 1]) + tail;
      } else {
        CutLeavesNoneEmpty(g[0], limit);
        tail := Cut(g[0], limit);
        assert [] + tail == tail;
      }
    }
  }

  // ---------- Runs of spans ----------

  /** Maximal runs of equal trace ID in a list of spans. */
  function Runs(xs: seq<Placed>): (rs: seq<seq<Placed>>)
    ensures forall i | 0 <= i < |rs| :: rs[i] != []
  {
    if xs == [] then []
    else
      var rs := Runs(xs[..|xs| - 1]);
      Extend(rs, Joins(rs, xs[|xs| - 1]), [xs[|xs| - 1]])
  }

  /** The span belongs to the last run. */
  predicate Joins(rs: seq<seq<Placed>>, x: Placed) {
    rs != [] && rs[|rs| - 1] != [] && rs[|rs| - 1][0].span.traceId == x.span.traceId
  }

  predicate Uniform(xs: seq<Placed>) {
    forall i | 0 <= i < |xs| :: xs[i].span.traceId == xs[0].span.traceId
  }

  function Joined(rs: seq<seq<Placed>>): seq<Placed> {
    if rs == [] then [] else Joined(rs[..|rs| - 1]) + rs[|rs| - 1]
  }

  ghost predicate IsRunPartition(rs: seq<seq<Placed>>, xs: seq<Placed>) {
    && Joined(rs) == xs
    && (forall i | 0 <= i < |rs| :: rs[i] != [] && Uniform(rs[i]))
    && forall i | 0 < i < |rs| :: rs[i - 1][0].span.traceId != rs[i][0].span.traceId
  }

  lemma JoinedExtend(rs: seq<seq<Placed>>, join: bool, f: seq<Placed>)
    requires join ==> rs != []
    ensures Joined(Extend(rs, join, f)) == Joined(rs) + f
  {
    hide Extend;
    if join {
      assert Joined(rs[..|rs| - 1]) + (rs[|rs| - 1] + f) == Joined(rs[..|rs| - 1]) + rs[|rs| - 1] + f;
    }
  }

  /** Adding one span to a run partition. */
  lemma PartitionExtend(rs: seq<seq<Placed>>, xs: seq<Placed>, x: Placed)
    requires IsRunPartition(rs, xs)
    ensures IsRunPartition(Extend(rs, Joins(rs, x), [x]), xs + [x])
  {
    hide Extend, Joined;
    var join := Joins(rs, x);
    var rs' := Extend(rs, join, [x]);
    var n := |rs'| - 1;
    JoinedExtend(rs, join, [x]);
    assert forall i | 0 <= i < n :: rs'[i] == rs'[..n][i] == rs[i];
    assert rs'[n][0] == if join then rs[n][0] else x;
  }

  /** Runs are a partition into uniform pieces of which no two neighbours could be joined. */
  lemma {:induction false} RunsPartition(xs: seq<Placed>)
    ensures IsRunPartition(Runs(xs), xs)
  {
    hide IsRunPartition, Extend, Joins;
    if xs == [] {
      NothingPartitions();
    } else {
      var init, x := xs[..|xs| - 1], xs[|xs| - 1];
      RunsPartition(init);
      PartitionExtend(Runs(init), init, x);
      assert init + [x] == xs;
    }
  }

  lemma NothingPartitions()
    ensures IsRunPartition([], [])
  {}

  /** Taking the last span off a run partition. */
  lemma PartitionShrink(rs: seq<seq<Placed>>, xs: seq<Placed>) returns (rs': seq<seq<Placed>>)
    requires IsRunPartition(rs, xs) && xs != []
    ensures IsRunPartition(rs', xs[..|xs| - 1])
    ensures rs == Extend(rs', Joins(rs', xs[|xs| - 1]), [xs[|xs| - 1]])
  {
    var n := |rs| - 1;
    var last, front, x := rs[n], rs[..n], xs[|xs| - 1];
    assert xs == Joined(front) + last && x == last[|last| - 1];
    assert forall i | 0 <= i < n :: front[i] == rs[i];
    assert last[0].span.traceId == x.span.traceId;
    if |last| == 1 {
      rs' := front;
      assert xs[..|xs| - 1] == Joined(front);
      assert last == [x] && rs == front + [last];
    } else {
      var shorter := last[..|last| - 1];
      rs' := front + [shorter];
      assert rs'[..n] == front && rs'[n] == shorter;
      assert xs[..|xs| - 1] == Joined(front) + shorter;
      assert shorter + [x] == last && rs == front + [last];
    }
  }

  lemma JoinedNonEmpty(rs: seq<seq<Placed>>)
    requires rs != [] && rs[|rs| - 1] != []
    ensures Joined(rs) != []
  {}

  /** And the only one. */
  lemma {:induction false} RunsUnique(rs: seq<seq<Placed>>, xs: seq<Placed>)
    requires IsRunPartition(rs, xs)
    ensures rs == Runs(xs)
    decreases |xs|
  {
    hide Extend, Joins;
    if xs == [] {
      if rs != [] {
        JoinedNonEmpty(rs);
      }
    } else {
      var rs' := PartitionShrink(rs, xs);
      RunsUnique(rs', xs[..|xs| - 1]);
    }
  }

  /** A uniform stretch of spans extends the last run or is one of its own. */
  lemma {:induction false} RunsOfStretch(xs: seq<Placed>, f: seq<Placed>)
    requires f != [] && Uniform(f)
    ensures Runs(xs + f) == Extend(Runs(xs), Joins(Runs(xs), f[0]), f)
    decreases |f|
  {
    var init, x := f[..|f| - 1], f[|f| - 1];
    assert (xs + f)[..|xs + f| - 1] == xs + init;
    assert init + [x] == f;
    if init == [] {
      assert xs + init == xs && f == [x];
    } else {
      hide Extend;
      RunsOfStretch(xs, init);
      ExtendTwice(Runs(xs), Joins(Runs(xs), f[0]), init, x);
    }
  }

  lemma ExtendTwice(rs: seq<seq<Placed>>, join: bool, init: seq<Placed>, x: Placed)
    requires join == Joins(rs, x) && init != [] && init[0].span.traceId == x.span.traceId
    ensures Joins(Extend(rs, join, init), x)
    ensures Extend(Extend(rs, join, init), true, [x]) == Extend(rs, join, init + [x])
  {
    if join {
      assert rs[|rs| - 1] + init + [x] == rs[|rs| - 1] + (init + [x]);
    }
  }

  function FlattenAll(cs: seq<Trace>): seq<Placed> {
    if cs == [] then [] else FlattenAll(cs[..|cs| - 1]) + Flatten(cs[|cs| - 1])
  }

  function FlattenGroups(gs: seq<seq<Trace>>): (rs: seq<seq<Placed>>)
    ensures |rs| == |gs|
    ensures forall i | 0 <= i < |gs| :: rs[i] == Flatten(Concat(gs[i]))
  {
    if gs == [] then [] else FlattenGroups(gs[..|gs| - 1]) + [Flatten(Concat(gs[|gs| - 1]))]
  }

  /** The first chunk of a group decides the trace ID of the whole. */
  lemma {:induction false} GroupStartsWithFirstChunk(g: seq<Trace>)
    requires g != [] && SpanCount(g[0]) > 0
    ensures Flatten(Concat(g)) != [] && Flatten(Concat(g))[0].span.traceId == GetTraceId(g[0])
    decreases |g|
  {
    hide SpanCount, Flatten;
    SpanCountIsFlat(g[0]);
    if |g| == 1 {
      assert [] + g[0] == g[0];
      assert Concat(g) == g[0];
    } else {
      GroupStartsWithFirstChunk(g[..|g| - 1]);
      FlattenConcat(Concat(g[..|g| - 1]), g[|g| - 1]);
    }
  }

  /** With one trace ID a chunk, the groups are the runs of the flattened input: nothing is lost,
      and how a run was split into chunks makes no difference. */
  lemma {:induction false} GroupsAreRuns(cs: seq<Trace>)
    requires forall i | 0 <= i < |cs| :: Uniform(Flatten(cs[i]))
    ensures FlattenGroups(Groups(cs)) == Runs(FlattenAll(cs))
    decreases |cs|
  {
    hide Flatten, SpanCount, GetTraceId, Runs, Concat, Extend, Joins, Uniform, FlattenGroups;
    if cs == [] {
      NoRuns();
    } else {
      var init, c := cs[..|cs| - 1], cs[|cs| - 1];
      GroupsAreRuns(init);
      SpanCountIsFlat(c);
      if SpanCount(c) == 0 {
        assert FlattenAll(init) + Flatten(c) == FlattenAll(init);
      } else {
        RunsOfStretch(FlattenAll(init), Flatten(c));
        ExtendsGroups(init, c);
      }
    }
  }

  lemma NoRuns()
    ensures Runs([]) == [] && FlattenGroups([]) == []
  {}

  /** One more chunk, seen through flattening. */
  lemma ExtendsGroups(init: seq<Trace>, c: Trace)
    requires SpanCount(c) > 0 && Flatten(c) != []
    ensures var gs, rs := Groups(init), FlattenGroups(Groups(init));
            FlattenGroups(Extend(gs, gs != [] && GetTraceId(gs[|gs| - 1][0]) == GetTraceId(c), [c]))
            == Extend(rs, Joins(rs, Flatten(c)[0]), Flatten(c))
  {
    hide Flatten, SpanCount, Concat, FlattenGroups, Groups;
    var gs := Groups(init);
    GroupsHaveSpans(init);
    SpanCountIsFlat(c);
    ConcatOne(c);
    FlattenGroupsSnoc(gs, [c]);
    if gs != [] {
      var last, front := gs[|gs| - 1], gs[..|gs| - 1];
      GroupStartsWithFirstChunk(last);
      ConcatSnoc(last, c);
      FlattenConcat(Concat(last), c);
      FlattenGroupsSnoc(front, last);
      FlattenGroupsSnoc(front, last + [c]);
      assert front + [last] == gs;
    }
  }

  lemma FlattenGroupsSnoc(gs: seq<seq<Trace>>, g: seq<Trace>)
    ensures FlattenGroups(gs + [g]) == FlattenGroups(gs) + [Flatten(Concat(g))]
  {
    assert (gs + [g])[..|gs|] == gs;
  }

  lemma ConcatOne(c: Trace)
    ensures Concat([c]) == c
  {
    assert [] + c == c;
  }

  lemma ConcatSnoc(g: seq<Trace>, c: Trace)
    ensures Concat(g + [c]) == Concat(g) + c
  {
    assert (g + [c])[..|g|] == g;
  }
}
