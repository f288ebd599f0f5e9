/**
 Leader election over a lease lock, as interleaved steps of any number of participants, the lock
 and the clock.  A participant's background loop and its Close run concurrently; a call of the
 lock is two steps, one at the lock and one where the answer is stored.
 */
module Election {
  import opened Results

  /** Where the background loop is. */
  datatype Loop =
    | Calling                  // Acquire has been called
    | Answered(acquired: bool) // it has returned without error; the flag is about to be stored
    | Waiting                  // in the select, on the ticker and the close channel
    | Exited

  /** Where Close is.  closeOnce lets one caller through; any other waits for it. */
  datatype Closing =
    | Open
    | Signalled                // the close channel is closed; Close waits for the loop
    | Joined                   // the loop has exited
    | Read(wasLeader: bool)
    | Cleared(wasLeader: bool)
    | Closed

  /** `grantedUntil` is when the lease most recently granted to the participant runs out; nothing
      in the participant knows it. */
  datatype Participant = Participant(isLeader: bool, loop: Loop, closing: Closing, grantedUntil: Option<int>)

  datatype Lease = Lease(holder: nat, expiry: int)

  datatype State = State(now: int, lock: Option<Lease>, ps: seq<Participant>)

  /** What a participant, or the lock on its behalf, can do. */
  datatype Move =
    | Grant                    // the lock grants, and says so
    | Deny
    | Fail(granted: bool)      // Acquire returns an error; the lock may have granted all the same
    | Store                    // setLeader(acquired)
    | Wake                     // the ticker fires
    | Exit                     // the loop sees the close channel
    | Signal                   // Close closes the channel
    | Join
    | ReadFlag
    | ClearFlag
    | Forfeit(released: bool)  // whatever Forfeit returns
    | Finish                   // there was no lease to forfeit

  datatype Step = Tick(d: nat) | By(p: nat, move: Move)

  function Initial(now: int, n: nat): State {
    State(now, None, seq(n, _ => Participant(false, Calling, Open, None)))
  }

  /** The lock grants a lease only when no other holder's lease is unexpired. */
  predicate MayGrant(s: State, p: nat) {
    s.lock == None || s.lock.value.holder == p || s.lock.value.expiry <= s.now
  }

  predicate Possible(s: State, p: nat, move: Move)
    requires p < |s.ps|
  {
    var me := s.ps[p];
    match move
    case Grant => me.loop.Calling? && MayGrant(s, p)
    case Deny => me.loop.Calling?
    case Fail(granted) => me.loop.Calling? && (granted ==> MayGrant(s, p))
    case Store => me.loop.Answered?
    case Wake => me.loop.Waiting?
    case Exit => me.loop.Waiting? && !me.closing.Open?
    case Signal => me.closing.Open?
    case Join => me.closing.Signalled? && me.loop.Exited?
    case ReadFlag => me.closing.Joined?
    case ClearFlag => me.closing.Read?
    case Forfeit(_) => me.closing.Cleared? && me.closing.wasLeader
    case Finish => me.closing.Cleared? && !me.closing.wasLeader
  }

  predicate Enabled(s: State, step: Step) {
    step.By? ==> step.p < |s.ps| && Possible(s, step.p, step.move)
  }

  function Set(s: State, p: nat, me: Participant): State
    requires p < |s.ps|
  {
    s.(ps := s.ps[p := me])
  }

  function Granted(s: State, ttl: nat -> int, p: nat, me: Participant): State
    requires p < |s.ps|
  {
    Set(s, p, me.(grantedUntil := Some(s.now + ttl(p)))).(lock := Some(Lease(p, s.now + ttl(p))))
  }

  /** Only the owner of the lease can forfeit it. */
  function Forfeited(s: State, p: nat, me: Participant, released: bool): State
    requires p < |s.ps|
  {
    if released && s.lock.Some? && s.lock.value.holder == p then
      Set(s, p, me.(grantedUntil := None)).(lock := None)
    else Set(s, p, me)
  }

  function Moved(s: State, ttl: nat -> int, p: nat, move: Move): State
    requires p < |s.ps| && Possible(s, p, move)
  {
    var me := s.ps[p];
    match move
    case Grant => Granted(s, ttl, p, me.(loop := Answered(true)))
    case Deny => Set(s, p, me.(loop := Answered(false)))
    case Fail(granted) => if granted then Granted(s, ttl, p, me.(loop := Waiting)) else Set(s, p, me.(loop := Waiting))
    case Store => Set(s, p, me.(isLeader := me.loop.acquired, loop := Waiting))
    case Wake => Set(s, p, me.(loop := Calling))
    case Exit => Set(s, p, me.(loop := Exited))
    case Signal => Set(s, p, me.(closing := Signalled))
    case Join => Set(s, p, me.(closing := Joined))
    case ReadFlag => Set(s, p, me.(closing := Read(me.isLeader)))
    case ClearFlag => Set(s, p, me.(isLeader := false, closing := Cleared(me.closing.wasLeader)))
    case Forfeit(released) => Forfeited(s, p, me.(closing := Closed), released)
    case Finish => Set(s, p, me.(closing := Closed))
  }

  function Next(s: State, ttl: nat -> int, step: Step): State
    requires Enabled(s, step)
  {
    match step
    case Tick(d) => s.(now := s.now + d)
    case By(p, move) => Moved(s, ttl, p, move)
  }

  // ---------- What every step keeps ----------

  predicate Holds(s: State, p: nat)
    requires p < |s.ps|
  {
    s.ps[p].grantedUntil.Some? && s.now < s.ps[p].grantedUntil.value
  }

  /** A lease that has not run out is the one in the lock. */
  predicate LeaseInLock(s: State, p: nat)
    requires p < |s.ps|
  {
    Holds(s, p) ==> s.lock == Some(Lease(p, s.ps[p].grantedUntil.value))
  }

  /** Past the join the loop is gone, and past the clearing the flag stays down. */
  predicate WellClosed(me: Participant) {
    && (me.closing.Joined? || me.closing.Read? || me.closing.Cleared? || me.closing.Closed? ==> me.loop.Exited?)
    && (me.closing.Read? ==> me.closing.wasLeader == me.isLeader)
    && (me.closing.Cleared? || me.closing.Closed? ==> !me.isLeader)
  }

  /** Only a granted lease ever raises the flag. */
  predicate GrantedFirst(me: Participant) {
    (me.isLeader || me.loop == Answered(true)) ==> me.grantedUntil.Some?
  }

  predicate Good(s: State, p: nat)
    requires p < |s.ps|
  {
    LeaseInLock(s, p) && WellClosed(s.ps[p]) && GrantedFirst(s.ps[p])
  }

  ghost predicate Invariant(s: State) {
    forall p | 0 <= p < |s.ps| :: Good(s, p)
  }

  /** Whoever takes the step, every participant stays good. */
  lemma StepKeepsGood(s: State, ttl: nat -> int, step: Step, q: nat)
    requires Enabled(s, step) && q < |s.ps| && Invariant(s)
    ensures |Next(s, ttl, step).ps| == |s.ps| && Good(Next(s, ttl, step), q)
  {
    assert Good(s, q);
    if !step.Tick? {
      assert Good(s, step.p);
    }
  }

  lemma NextKeeps(s: State, ttl: nat -> int, step: Step)
    requires Enabled(s, step) && Invariant(s)
    ensures Invariant(Next(s, ttl, step))
  {
    var s' := Next(s, ttl, step);
    assert |s'.ps| == |s.ps|;
    forall q | 0 <= q < |s'.ps| ensures Good(s', q) {
      StepKeepsGood(s, ttl, step, q);
    }
  }

  lemma NextKeepsCount(s: State, ttl: nat -> int, step: Step)
    requires Enabled(s, step)
    ensures |Next(s, ttl, step).ps| == |s.ps|
  {}

  // ---------- Runs ----------

  /** The state after the steps, or nothing if one of them was not enabled. */
  function Run(s: State, ttl: nat -> int, steps: seq<Step>): Option<State>
    decreases |steps|
  {
    if steps == [] then Some(s)
    else if Enabled(s, steps[0]) then Run(Next(s, ttl, steps[0]), ttl, steps[1..])
    else None
  }

  lemma {:induction false} RunKeeps(s: State, ttl: nat -> int, steps: seq<Step>)
    requires Invariant(s) && Run(s, ttl, steps).Some?
    ensures Invariant(Run(s, ttl, steps).value)
    decreases |steps|
  {
    hide Enabled, Next, Invariant;
    if steps != [] {
      NextKeeps(s, ttl, steps[0]);
      RunKeeps(Next(s, ttl, steps[0]), ttl, steps[1..]);
    }
  }

  lemma InitialIsGood(now: int, n: nat)
    ensures Invariant(Initial(now, n))
  {}

  predicate AtMostOneLeader(s: State) {
    forall p, q | 0 <= p < q < |s.ps| :: !(s.ps[p].isLeader && s.ps[q].isLeader)
  }

  /** Two leases that have not run out are the same one. */
  lemma OneLease(s: State, p: nat, q: nat)
    requires Invariant(s) && p < |s.ps| && q < |s.ps| && Holds(s, p) && Holds(s, q)
    ensures p == q
  {
    assert Good(s, p) && Good(s, q);
  }

  /** Safety, for every number of participants and every interleaving: two of them are flagged at
      once only when the most recently granted lease of one of the two has run out. */
  lemma TwoLeadersNeedAnExpiredLease(now: int, n: nat, ttl: nat -> int, steps: seq<Step>, p: nat, q: nat)
    requires Run(Initial(now, n), ttl, steps).Some?
    requires var s := Run(Initial(now, n), ttl, steps).value;
             p < |s.ps| && q < |s.ps| && p != q && s.ps[p].isLeader && s.ps[q].isLeader
    ensures var s := Run(Initial(now, n), ttl, steps).value;
            (s.ps[p].grantedUntil.Some? && s.ps[p].grantedUntil.value <= s.now)
            || (s.ps[q].grantedUntil.Some? && s.ps[q].grantedUntil.value <= s.now)
  {
    hide Run;
    InitialIsGood(now, n);
    RunKeeps(Initial(now, n), ttl, steps);
    var s := Run(Initial(now, n), ttl, steps).value;
    assert Good(s, p) && Good(s, q);
    if Holds(s, p) && Holds(s, q) {
      OneLease(s, p, q);
    }
  }

  /** And that does happen: the flag does not fall with the lease, so a second participant can be
      flagged while the first has yet to notice. */
  lemma TwoLeadersAfterExpiry(now: int, ttl: nat -> int)
    requires ttl(0) >= 0
    ensures var steps := [By(0, Grant), By(0, Store), Tick(ttl(0)), By(1, Grant), By(1, Store)];
            Run(Initial(now, 2), ttl, steps).Some? && !AtMostOneLeader(Run(Initial(now, 2), ttl, steps).value)
  {
    var a: seq<Step> := [By(0, Grant), By(0, Store), Tick(ttl(0)), By(1, Grant), By(1, Store)];
    var s0 := Initial(now, 2);
    var s1 := Next(s0, ttl, a[0]);
    var s2 := Next(s1, ttl, a[1]);
    var s3 := Next(s2, ttl, a[2]);
    var s4 := Next(s3, ttl, a[3]);
    var s5 := Next(s4, ttl, a[4]);
    assert s5.ps[0].isLeader && s5.ps[1].isLeader;
    assert a[4..][1..] == [] && a[3..][1..] == a[4..] && a[2..][1..] == a[3..] && a[1..][1..] == a[2..];
    assert Run(s4, ttl, a[4..]) == Some(s5);
    assert Run(s3, ttl, a[3..]) == Some(s5);
    assert Run(s2, ttl, a[2..]) == Some(s5);
    assert Run(s1, ttl, a[1..]) == Some(s5);
  }

  // ---------- When a second leader can appear ----------

  predicate StepsOf(q: nat, steps: seq<Step>) {
    forall i | 0 <= i < |steps| :: steps[i].By? && steps[i].p == q
  }

  /** The participant is flagged, or about to be, or its loop still runs and the lock would grant. */
  predicate CanLead(s: State, q: nat)
    requires q < |s.ps|
  {
    s.ps[q].isLeader || s.ps[q].loop == Answered(true) || (!s.ps[q].loop.Exited? && MayGrant(s, q))
  }

  /** The steps by which it does become leader. */
  function Attempt(me: Participant, q: nat): seq<Step> {
    if me.isLeader then []
    else match me.loop
      case Calling => [By(q, Grant), By(q, Store)]
      case Answered(true) => [By(q, Store)]
      case Answered(false) => [By(q, Store), By(q, Wake), By(q, Grant), By(q, Store)]
      case Waiting => [By(q, Wake), By(q, Grant), By(q, Store)]
      case Exited => []
  }

  /** q has become leader; no time has passed and nobody else has changed. */
  ghost predicate Promoted(s: State, s': State, q: nat)
    requires q < |s.ps|
  {
    && |s'.ps| == |s.ps| && s'.now == s.now && s'.ps[q].isLeader
    && forall p | 0 <= p < |s.ps| && p != q :: s'.ps[p] == s.ps[p]
  }

  lemma RunCons(s: State, ttl: nat -> int, step: Step, rest: seq<Step>)
    ensures Run(s, ttl, [step] + rest) == if Enabled(s, step) then Run(Next(s, ttl, step), ttl, rest) else None
  {
    assert ([step] + rest)[1..] == rest;
  }

  lemma GrantAndStore(s: State, ttl: nat -> int, q: nat)
    requires q < |s.ps| && s.ps[q].loop.Calling?
    ensures Run(s, ttl, [By(q, Grant), By(q, Store)]).Some? <==> MayGrant(s, q)
    ensures
      MayGrant(s, q) ==>
        var s' := Run(s, ttl, [By(q, Grant), By(q, Store)]).value;
        Promoted(s, s', q)
  {
    var a, b := By(q, Grant), By(q, Store);
    RunCons(s, ttl, a, [b]);
    if MayGrant(s, q) {
      RunCons(Next(s, ttl, a), ttl, b, []);
      assert [b] + [] == [b];
    }
    assert [a] + [b] == [a, b];
  }

  lemma WakeAndGrant(s: State, ttl: nat -> int, q: nat)
    requires q < |s.ps| && s.ps[q].loop.Waiting?
    ensures Run(s, ttl, [By(q, Wake), By(q, Grant), By(q, Store)]).Some? <==> MayGrant(s, q)
    ensures
      MayGrant(s, q) ==>
        var s' := Run(s, ttl, [By(q, Wake), By(q, Grant), By(q, Store)]).value;
        Promoted(s, s', q)
  {
    hide Run;
    var a := By(q, Wake);
    RunCons(s, ttl, a, [By(q, Grant), By(q, Store)]);
    GrantAndStore(Next(s, ttl, a), ttl, q);
    assert [a] + [By(q, Grant), By(q, Store)] == [a, By(q, Grant), By(q, Store)];
  }

  /** The attempt succeeds whenever the participant can lead, at the same instant and without
      anybody else's doing. */
  lemma AttemptLeads(s: State, ttl: nat -> int, q: nat)
    requires q < |s.ps| && CanLead(s, q)
    ensures
      var steps := Attempt(s.ps[q], q);
      StepsOf(q, steps) && Run(s, ttl, steps).Some? &&
      var s' := Run(s, ttl, steps).value;
      Promoted(s, s', q)
  {
    var me := s.ps[q];
    if !me.isLeader {
      match me.loop
      case Calling => GrantAndStore(s, ttl, q);
      case Waiting => WakeAndGrant(s, ttl, q);
      case Answered(acquired) =>
        var a := By(q, Store);
        RunCons(s, ttl, a, if acquired then [] else [By(q, Wake), By(q, Grant), By(q, Store)]);
        if acquired {
          assert [a] + [] == [a];
        } else {
          WakeAndGrant(Next(s, ttl, a), ttl, q);
          assert [a] + [By(q, Wake), By(q, Grant), By(q, Store)] == Attempt(me, q);
        }
      case Exited =>
    }
  }

  lemma {:induction false} OnlyIfItCanLead(s: State, ttl: nat -> int, steps: seq<Step>, q: nat)
    requires q < |s.ps| && StepsOf(q, steps) && Run(s, ttl, steps).Some? && !CanLead(s, q)
    ensures var s' := Run(s, ttl, steps).value; |s'.ps| == |s.ps| && !s'.ps[q].isLeader
    decreases |steps|
  {
    if steps != [] {
      assert steps[0].p == q;
      OnlyIfItCanLead(Next(s, ttl, steps[0]), ttl, steps[1..], q);
    }
  }

  /** While p is flagged, q can come to be flagged as well, by its own steps and before the clock
      moves, exactly when it can lead.  For a q that is not already on its way there this takes a
      loop that still runs and a lock that would grant, and then p's lease has run out. */
  lemma SecondLeaderIff(s: State, ttl: nat -> int, p: nat, q: nat)
    requires Invariant(s) && p < |s.ps| && q < |s.ps| && p != q && s.ps[p].isLeader
    ensures
      CanLead(s, q) <==>
      exists steps :: StepsOf(q, steps) && BothFlagged(Run(s, ttl, steps), p, q)
    ensures MayGrant(s, q) ==> !Holds(s, p)
  {
    hide Run, CanLead;
    assert Good(s, p);
    if CanLead(s, q) {
      AttemptLeads(s, ttl, q);
      assert BothFlagged(Run(s, ttl, Attempt(s.ps[q], q)), p, q);
    } else {
      forall steps | StepsOf(q, steps) ensures !BothFlagged(Run(s, ttl, steps), p, q) {
        if Run(s, ttl, steps).Some? {
          OnlyIfItCanLead(s, ttl, steps, q);
        }
      }
    }
  }

  predicate BothFlagged(s: Option<State>, p: nat, q: nat) {
    s.Some? && p < |s.value.ps| && q < |s.value.ps| && s.value.ps[p].isLeader && s.value.ps[q].isLeader
  }

  // ---------- Renewing in time ----------

  /** Whose lease matters: a leader, or one about to become it. */
  predicate Relies(me: Participant) {
    me.isLeader || me.loop == Answered(true)
  }

  /** The clock does not pass the end of a lease somebody relies on: every leader renews, or steps
      down, before its lease runs out. */
  predicate InTime(s: State, step: Step) {
    step.Tick? ==>
      forall p | 0 <= p < |s.ps| && Relies(s.ps[p]) && s.ps[p].grantedUntil.Some? ::
        s.now + step.d < s.ps[p].grantedUntil.value
  }

  predicate RunsInTime(s: State, ttl: nat -> int, steps: seq<Step>)
    decreases |steps|
  {
    steps == [] ||
    (Enabled(s, steps[0]) && InTime(s, steps[0]) && RunsInTime(Next(s, ttl, steps[0]), ttl, steps[1..]))
  }

  ghost predicate Covered(s: State) {
    forall p | 0 <= p < |s.ps| :: Relies(s.ps[p]) ==> Holds(s, p)
  }

  lemma NextKeepsCovered(s: State, ttl: nat -> int, step: Step)
    requires forall p | 0 <= p < |s.ps| :: ttl(p) > 0
    requires Enabled(s, step) && InTime(s, step) && Invariant(s) && Covered(s)
    ensures Covered(Next(s, ttl, step))
  {
    var s' := Next(s, ttl, step);
    forall q | 0 <= q < |s'.ps| && Relies(s'.ps[q]) ensures Holds(s', q) {
      assert Good(s, q);
      if !step.Tick? && step.p == q {
      } else {
        assert Relies(s.ps[q]) && Holds(s, q);
      }
    }
  }

  lemma {:induction false} CoveredRun(s: State, ttl: nat -> int, steps: seq<Step>)
    requires (forall p | 0 <= p < |s.ps| :: ttl(p) > 0) && Invariant(s) && Covered(s) && RunsInTime(s, ttl, steps)
    ensures Run(s, ttl, steps).Some? && AtMostOneLeader(Run(s, ttl, steps).value)
    decreases |steps|
  {
    hide Enabled, Next, InTime;
    if steps == [] {
      forall p, q | 0 <= p < q < |s.ps| ensures !(s.ps[p].isLeader && s.ps[q].isLeader) {
        if s.ps[p].isLeader && s.ps[q].isLeader {
          OneLease(s, p, q);
        }
      }
    } else {
      NextKeeps(s, ttl, steps[0]);
      NextKeepsCovered(s, ttl, steps[0]);
      NextKeepsCount(s, ttl, steps[0]);
      CoveredRun(Next(s, ttl, steps[0]), ttl, steps[1..]);
    }
  }

  lemma {:induction false} InTimeSoFar(s: State, ttl: nat -> int, steps: seq<Step>, i: nat)
    requires RunsInTime(s, ttl, steps) && i <= |steps|
    ensures RunsInTime(s, ttl, steps[..i])
    decreases i
  {
    hide Enabled, Next, InTime;
    if i > 0 {
      InTimeSoFar(Next(s, ttl, steps[0]), ttl, steps[1..], i - 1);
      assert steps[..i][1..] == steps[1..][..i - 1];
    }
  }

  /** If every leader renews within the lease length, at most one participant is flagged at every
      point of the run. */
  lemma RenewedInTimeMeansOneLeader(now: int, n: nat, ttl: nat -> int, steps: seq<Step>, i: nat)
    requires (forall p | 0 <= p < n :: ttl(p) > 0) && RunsInTime(Initial(now, n), ttl, steps) && i <= |steps|
    ensures Run(Initial(now, n), ttl, steps[..i]).Some?
    ensures AtMostOneLeader(Run(Initial(now, n), ttl, steps[..i]).value)
  {
    InitialIsGood(now, n);
    InTimeSoFar(Initial(now, n), ttl, steps, i);
    CoveredRun(Initial(now, n), ttl, steps[..i]);
  }

  // ---------- Closing ----------

  /** A participant that is closed stays closed, and no interleaving raises its flag again. */
  lemma {:induction false} ClosedIsFinal(s: State, ttl: nat -> int, steps: seq<Step>, p: nat)
    requires Invariant(s) && p < |s.ps| && s.ps[p].closing.Closed? && Run(s, ttl, steps).Some?
    ensures var s' := Run(s, ttl, steps).value;
            |s'.ps| == |s.ps| && s'.ps[p].closing.Closed? && !s'.ps[p].isLeader && s'.ps[p].loop.Exited?
    decreases |steps|
  {
    assert Good(s, p);
    if steps != [] {
      NextKeeps(s, ttl, steps[0]);
      ClosedIsFinal(Next(s, ttl, steps[0]), ttl, steps[1..], p);
    }
  }

  /** Closing a participant never takes the lease of another from the lock. */
  lemma ForfeitSparesOthers(s: State, ttl: nat -> int, p: nat, released: bool, q: nat)
    requires Enabled(s, By(p, Forfeit(released))) && Invariant(s) && q < |s.ps| && q != p && Holds(s, q)
    ensures Next(s, ttl, By(p, Forfeit(released))).lock == s.lock
  {
    assert Good(s, q);
  }
}
