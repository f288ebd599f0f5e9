/**
 What makes leaders renew in time: a bound on how long a call of the lock takes, and the interval
 at which the leader's ticker fires.
 */
module Renewal {
  import opened Results
  import opened Election

  /** Per participant: the longest it takes from the ticker firing, or for a newcomer from the
      lock's grant, until the answer is stored; the longest from there until the ticker fires again;
      and the length of the leases it asks for. */
  datatype Timing = Timing(latency: nat -> nat, refresh: nat -> nat, lease: nat -> int)

  /** `due[p]` is when the next step of a participant that relies on its lease must have happened. */
  datatype Timed = Timed(s: State, due: seq<int>)

  function Begin(now: int, n: nat): Timed {
    Timed(Initial(now, n), seq(n, _ => now))
  }

  /** The clock waits for whatever is due, and the lock answers a leader without error. */
  predicate OnTime(x: Timed, step: Step) {
    && |x.due| == |x.s.ps|
    && Enabled(x.s, step)
    && match step
       case Tick(d) => forall p | 0 <= p < |x.s.ps| :: Relies(x.s.ps[p]) ==> x.s.now + d <= x.due[p]
       case By(p, move) => move.Fail? ==> !x.s.ps[p].isLeader
  }

  function Due(x: Timed, t: Timing, step: Step): seq<int>
    requires OnTime(x, step)
  {
    match step
    case Tick(_) => x.due
    case By(p, move) =>
      match move
      case Grant => if x.s.ps[p].isLeader then x.due else x.due[p := x.s.now + t.latency(p)]
      case Store => x.due[p := x.s.now + t.refresh(p)]
      case Wake => x.due[p := x.s.now + t.latency(p)]
      case _ => x.due
  }

  function Advance(x: Timed, t: Timing, step: Step): Timed
    requires OnTime(x, step)
  {
    Timed(Next(x.s, t.lease, step), Due(x, t, step))
  }

  /** The state after the steps, or nothing if one of them came out of turn or too late. */
  function TimedRun(x: Timed, t: Timing, steps: seq<Step>): Option<Timed>
    decreases |steps|
  {
    if steps == [] then Some(x)
    else if OnTime(x, steps[0]) then TimedRun(Advance(x, t, steps[0]), t, steps[1..])
    else None
  }

  // ---------- What timing keeps ----------

  /** How long after the last grant the next step may be due. */
  function Slack(t: Timing, p: nat, loop: Loop): nat {
    match loop
    case Answered(acquired) => if acquired then t.latency(p) else 2 * t.latency(p) + t.refresh(p)
    case Calling => 2 * t.latency(p) + t.refresh(p)
    case _ => t.latency(p) + t.refresh(p)
  }

  predicate Timely(x: Timed, t: Timing, p: nat)
    requires p < |x.s.ps| == |x.due|
  {
    var me := x.s.ps[p];
    Relies(me) ==>
      && me.grantedUntil.Some?
      && x.s.now <= x.due[p] <= me.grantedUntil.value - t.lease(p) + Slack(t, p, me.loop)
      && (me.loop.Calling? ==> x.due[p] <= x.s.now + t.latency(p))
  }

  ghost predicate Punctual(x: Timed, t: Timing) {
    && Invariant(x.s)
    && |x.due| == |x.s.ps|
    && forall p | 0 <= p < |x.s.ps| :: Timely(x, t, p)
  }

  lemma AdvanceKeepsTimely(x: Timed, t: Timing, step: Step, q: nat)
    requires Punctual(x, t) && OnTime(x, step) && q < |x.s.ps|
    ensures var x' := Advance(x, t, step); |x'.s.ps| == |x'.due| == |x.s.ps| && Timely(x', t, q)
  {
    hide Invariant, MayGrant;
    assert Good(x.s, q) by { GoodAt(x.s, q); }
    assert Timely(x, t, q);
  }

  lemma GoodAt(s: State, q: nat)
    requires Invariant(s) && q < |s.ps|
    ensures Good(s, q)
  {}

  lemma AdvanceKeeps(x: Timed, t: Timing, step: Step)
    requires Punctual(x, t) && OnTime(x, step)
    ensures Punctual(Advance(x, t, step), t)
  {
    hide Advance, Timely, OnTime;
    var x' := Advance(x, t, step);
    AdvanceIsNext(x, t, step);
    NextKeeps(x.s, t.lease, step);
    NextKeepsCount(x.s, t.lease, step);
    DueKeepsCount(x, t, step);
    forall q | 0 <= q < |x.s.ps| ensures Timely(x', t, q) {
      AdvanceKeepsTimely(x, t, step, q);
    }
  }

  lemma AdvanceIsNext(x: Timed, t: Timing, step: Step)
    requires OnTime(x, step)
    ensures Enabled(x.s, step) && Advance(x, t, step).s == Next(x.s, t.lease, step)
  {}

  lemma DueKeepsCount(x: Timed, t: Timing, step: Step)
    requires OnTime(x, step)
    ensures |Advance(x, t, step).due| == |x.due|
  {}

  /** A call, an interval and another call fit into a lease. */
  predicate Fits(t: Timing, p: nat) {
    2 * t.latency(p) + t.refresh(p) < t.lease(p)
  }

  lemma PunctualIsInTime(x: Timed, t: Timing, step: Step)
    requires Punctual(x, t) && OnTime(x, step) && forall p | 0 <= p < |x.s.ps| :: Fits(t, p)
    ensures InTime(x.s, step)
  {
    hide Invariant, Enabled;
    if step.Tick? {
      forall p | 0 <= p < |x.s.ps| && Relies(x.s.ps[p])
        ensures x.s.ps[p].grantedUntil.Some? && x.s.now + step.d < x.s.ps[p].grantedUntil.value
      {
        assert Timely(x, t, p) && Fits(t, p);
      }
    }
  }

  /** Punctual runs are runs in which everybody renews in time. */
  lemma {:induction false} TimedRunsInTime(x: Timed, t: Timing, steps: seq<Step>)
    requires Punctual(x, t) && TimedRun(x, t, steps).Some? && forall p | 0 <= p < |x.s.ps| :: Fits(t, p)
    ensures RunsInTime(x.s, t.lease, steps)
    ensures Run(x.s, t.lease, steps) == Some(TimedRun(x, t, steps).value.s)
    decreases |steps|
  {
    hide Advance, OnTime, Punctual, InTime, Next, Enabled;
    if steps != [] {
      AdvanceIsNext(x, t, steps[0]);
      PunctualIsInTime(x, t, steps[0]);
      AdvanceKeeps(x, t, steps[0]);
      NextKeepsCount(x.s, t.lease, steps[0]);
      TimedRunsInTime(Advance(x, t, steps[0]), t, steps[1..]);
    }
  }

  lemma BeginsPunctual(now: int, n: nat, t: Timing)
    ensures Punctual(Begin(now, n), t)
  {
    InitialIsGood(now, n);
  }

  // ---------- The bound is the right one ----------

  const IDLE := Participant(false, Calling, Open, None)

  /** p alone has been answered; everybody else is still calling. */
  function Solo(start: int, n: nat, p: nat, now: int, me: Participant, expiry: int, due: int): Timed {
    Timed(
      State(now, Some(Lease(p, expiry)), seq(n, i => if i == p then me else IDLE)),
      seq(n, i => if i == p then due else start))
  }

  lemma SoloBegins(start: int, n: nat, t: Timing, p: nat)
    requires p < n
    ensures
      var x, expiry := Begin(start, n), start + t.lease(p);
      var me := Participant(false, Answered(true), Open, Some(expiry));
      OnTime(x, By(p, Grant))
      && Advance(x, t, By(p, Grant)) == Solo(start, n, p, start, me, expiry, start + t.latency(p))
  {}

  lemma SoloTicks(start: int, n: nat, t: Timing, p: nat, now: int, me: Participant, expiry: int, due: int, d: nat)
    requires p < n && now + d <= due
    ensures
      var x := Solo(start, n, p, now, me, expiry, due);
      OnTime(x, Tick(d)) && Advance(x, t, Tick(d)) == Solo(start, n, p, now + d, me, expiry, due)
  {}

  lemma SoloStores(start: int, n: nat, t: Timing, p: nat, now: int, me: Participant, expiry: int, due: int)
    requires p < n && me.loop == Answered(true)
    ensures
      var x, stored := Solo(start, n, p, now, me, expiry, due), me.(isLeader := true, loop := Waiting);
      OnTime(x, By(p, Store))
      && Advance(x, t, By(p, Store)) == Solo(start, n, p, now, stored, expiry, now + t.refresh(p))
  {}

  lemma SoloWakes(start: int, n: nat, t: Timing, p: nat, now: int, me: Participant, expiry: int, due: int)
    requires p < n && me.loop.Waiting?
    ensures
      var x, woken := Solo(start, n, p, now, me, expiry, due), me.(loop := Calling);
      OnTime(x, By(p, Wake))
      && Advance(x, t, By(p, Wake)) == Solo(start, n, p, now, woken, expiry, now + t.latency(p))
  {}

  lemma TimedCons(x: Timed, t: Timing, step: Step, rest: seq<Step>)
    requires OnTime(x, step)
    ensures TimedRun(x, t, [step] + rest) == TimedRun(Advance(x, t, step), t, rest)
  {
    assert ([step] + rest)[1..] == rest;
  }

  /** p is granted a lease, takes as long as it may over everything, and has not been answered when
      q is granted one. */
  function LateRenewal(t: Timing, p: nat, q: nat): seq<Step> {
    [By(p, Grant)] + ([Tick(t.latency(p))] + ([By(p, Store)] + ([Tick(t.refresh(p))] + (
      [By(p, Wake)] + ([Tick(t.latency(p))] + ([By(q, Grant)] + ([By(q, Store)] + [])))))))
  }

  lemma TakesOver(start: int, n: nat, t: Timing, p: nat, q: nat, now: int, me: Participant, expiry: int, due: int)
    requires p < n && q < n && p != q && me.isLeader && expiry <= now
    ensures
      var end := TimedRun(Solo(start, n, p, now, me, expiry, due), t, [By(q, Grant)] + ([By(q, Store)] + []));
      end.Some? && !AtMostOneLeader(end.value.s)
  {
    hide TimedRun, AtMostOneLeader;
    var x := Solo(start, n, p, now, me, expiry, due);
    TimedCons(x, t, By(q, Grant), [By(q, Store)] + []);
    var x' := Advance(x, t, By(q, Grant));
    TimedCons(x', t, By(q, Store), []);
    var x'' := Advance(x', t, By(q, Store));
    TimedNothing(x'', t);
    TwoFlags(x''.s, p, q);
  }

  lemma TimedNothing(x: Timed, t: Timing)
    ensures TimedRun(x, t, []) == Some(x)
  {}

  lemma TwoFlags(s: State, p: nat, q: nat)
    requires p < |s.ps| && q < |s.ps| && p != q && s.ps[p].isLeader && s.ps[q].isLeader
    ensures !AtMostOneLeader(s)
  {
    if p < q {
      assert s.ps[p].isLeader && s.ps[q].isLeader;
    } else {
      assert s.ps[q].isLeader && s.ps[p].isLeader;
    }
  }

  lemma LateRenewalGivesTwoLeaders(start: int, n: nat, t: Timing, p: nat, q: nat)
    requires p < n && q < n && p != q && !Fits(t, p)
    ensures
      var end := TimedRun(Begin(start, n), t, LateRenewal(t, p, q));
      end.Some? && !AtMostOneLeader(end.value.s)
  {
    hide TimedRun, Advance, OnTime, AtMostOneLeader, Begin, Solo;
    var latency, refresh, expiry := t.latency(p), t.refresh(p), start + t.lease(p);
    var last := [By(q, Grant)] + ([By(q, Store)] + []);
    var sixth := [Tick(latency)] + last;
    var fifth := [By(p, Wake)] + sixth;
    var fourth := [Tick(refresh)] + fifth;
    var third := [By(p, Store)] + fourth;
    var second := [Tick(latency)] + third;
    var granted := Participant(false, Answered(true), Open, Some(expiry));
    SoloBegins(start, n, t, p);
    TimedCons(Begin(start, n), t, By(p, Grant), second);
    SoloTicks(start, n, t, p, start, granted, expiry, start + latency, latency);
    TimedCons(Solo(start, n, p, start, granted, expiry, start + latency), t, Tick(latency), third);
    var now := start + latency;
    SoloStores(start, n, t, p, now, granted, expiry, now);
    TimedCons(Solo(start, n, p, now, granted, expiry, now), t, By(p, Store), fourth);
    var leading := granted.(isLeader := true, loop := Waiting);
    SoloTicks(start, n, t, p, now, leading, expiry, now + refresh, refresh);
    TimedCons(Solo(start, n, p, now, leading, expiry, now + refresh), t, Tick(refresh), fifth);
    now := now + refresh;
    SoloWakes(start, n, t, p, now, leading, expiry, now);
    TimedCons(Solo(start, n, p, now, leading, expiry, now), t, By(p, Wake), sixth);
    var calling := leading.(loop := Calling);
    SoloTicks(start, n, t, p, now, calling, expiry, now + latency, latency);
    TimedCons(Solo(start, n, p, now, calling, expiry, now + latency), t, Tick(latency), last);
    now := now + latency;
    TakesOver(start, n, t, p, q, now, calling, expiry, now);
  }

  /** With at least two participants: every run in which leaders renew without error and nothing is
      late has at most one leader, exactly when for each of them two calls and the interval between
      them fit into a lease. */
  lemma OneLeaderIffRenewalFits(now: int, n: nat, t: Timing)
    requires n >= 2
    ensures
      (forall steps ::
         TimedRun(Begin(now, n), t, steps).Some? ==> AtMostOneLeader(TimedRun(Begin(now, n), t, steps).value.s))
      <==> forall p | 0 <= p < n :: Fits(t, p)
  {
    hide TimedRun, AtMostOneLeader, Fits, Punctual, RunsInTime, Run;
    if p: nat :| p < n && !Fits(t, p) {
      LateRenewalGivesTwoLeaders(now, n, t, p, if p == 0 then 1 else 0);
    } else {
      forall steps | TimedRun(Begin(now, n), t, steps).Some?
        ensures AtMostOneLeader(TimedRun(Begin(now, n), t, steps).value.s)
      {
        PunctualRunHasOneLeader(now, n, t, steps);
      }
    }
  }

  lemma PunctualRunHasOneLeader(now: int, n: nat, t: Timing, steps: seq<Step>)
    requires TimedRun(Begin(now, n), t, steps).Some? && forall p | 0 <= p < n :: Fits(t, p)
    ensures AtMostOneLeader(TimedRun(Begin(now, n), t, steps).value.s)
  {
    hide TimedRun, AtMostOneLeader, Fits, Punctual, RunsInTime, Run;
    forall p | 0 <= p < n ensures t.lease(p) > 0 {
      FitsIsPositive(t, p);
    }
    BeginsPunctual(now, n, t);
    TimedRunsInTime(Begin(now, n), t, steps);
    RenewedInTimeMeansOneLeader(now, n, t.lease, steps, |steps|);
    assert steps[..|steps|] == steps;
  }

  lemma FitsIsPositive(t: Timing, p: nat)
    requires Fits(t, p)
    ensures t.lease(p) > 0
  {}
}
