/**
 What a participant's flag says over a whole run, and how closing ends: the lease of a leader goes
 back to the lock.
 */
module Closing {
  import opened Results
  import opened Election

  // ---------- The flag ----------

  /** The lock's last answer to p, of those without an error. */
  predicate LastAnswer(steps: seq<Step>, p: nat) {
    steps != [] &&
    var before, last := steps[..|steps| - 1], steps[|steps| - 1];
    if last == By(p, Grant) then true
    else if last == By(p, Deny) then false
    else LastAnswer(before, p)
  }

  /** The answer last stored, until Close clears it. */
  predicate LastStored(steps: seq<Step>, p: nat) {
    steps != [] &&
    var before, last := steps[..|steps| - 1], steps[|steps| - 1];
    if last == By(p, Store) then LastAnswer(before, p)
    else last != By(p, ClearFlag) && LastStored(before, p)
  }

  lemma {:induction false} RunSnoc(s: State, ttl: nat -> int, steps: seq<Step>, last: Step)
    requires Run(s, ttl, steps + [last]).Some?
    ensures Run(s, ttl, steps).Some? && Enabled(Run(s, ttl, steps).value, last)
    ensures Run(s, ttl, steps + [last]).value == Next(Run(s, ttl, steps).value, ttl, last)
    decreases |steps|
  {
    hide Enabled, Next;
    if steps == [] {
      assert [] + [last] == [last] && [last][1..] == [];
    } else {
      assert (steps + [last])[1..] == steps[1..] + [last];
      RunSnoc(Next(s, ttl, steps[0]), ttl, steps[1..], last);
    }
  }

  predicate Reflects(s: State, p: nat, steps: seq<Step>)
    requires p < |s.ps|
  {
    && s.ps[p].isLeader == LastStored(steps, p)
    && (s.ps[p].loop.Answered? ==> s.ps[p].loop.acquired == LastAnswer(steps, p))
  }

  lemma StepReflects(s: State, ttl: nat -> int, p: nat, steps: seq<Step>, last: Step)
    requires p < |s.ps| && Enabled(s, last) && Reflects(s, p, steps)
    ensures |Next(s, ttl, last).ps| == |s.ps| && Reflects(Next(s, ttl, last), p, steps + [last])
  {
    hide MayGrant;
    assert (steps + [last])[..|steps|] == steps;
  }

  /** After every run the flag is the lock's last error-free answer that was stored, unless Close has
      cleared it: a leader that is denied steps down, and an error changes nothing. */
  lemma {:induction false} FlagIsLastAnswer(now: int, n: nat, ttl: nat -> int, steps: seq<Step>, p: nat)
    requires p < n && Run(Initial(now, n), ttl, steps).Some?
    ensures var s := Run(Initial(now, n), ttl, steps).value; |s.ps| == n && Reflects(s, p, steps)
    decreases |steps|
  {
    hide Enabled, Next, Reflects;
    if steps == [] {
      InitialReflects(now, n, p);
    } else {
      var before, last := steps[..|steps| - 1], steps[|steps| - 1];
      assert before + [last] == steps;
      RunSnoc(Initial(now, n), ttl, before, last);
      FlagIsLastAnswer(now, n, ttl, before, p);
      StepReflects(Run(Initial(now, n), ttl, before).value, ttl, p, before, last);
    }
  }

  lemma InitialReflects(now: int, n: nat, p: nat)
    requires p < n
    ensures Reflects(Initial(now, n), p, [])
  {}

  // ---------- Giving the lease back ----------

  /** The loop has been joined and Close is not over. */
  predicate Leaving(me: Participant) {
    me.closing.Joined? || me.closing.Read? || me.closing.Cleared?
  }

  /** It was flagged when the loop was joined. */
  predicate Owes(me: Participant) {
    match me.closing
    case Joined => me.isLeader
    case Read(wasLeader) => wasLeader
    case Cleared(wasLeader) => wasLeader
    case _ => false
  }

  predicate Forfeits(steps: seq<Step>, p: nat) {
    exists i | 0 <= i < |steps| :: steps[i].By? && steps[i].p == p && steps[i].move.Forfeit?
  }

  predicate Finishes(steps: seq<Step>, p: nat) {
    exists i | 0 <= i < |steps| :: steps[i] == By(p, Finish)
  }

  /** What one step does to a participant that is leaving. */
  lemma LeavingStep(s: State, ttl: nat -> int, step: Step, p: nat)
    requires Invariant(s) && p < |s.ps| && Enabled(s, step) && Leaving(s.ps[p])
    ensures |Next(s, ttl, step).ps| == |s.ps|
    ensures
      var me, me' := s.ps[p], Next(s, ttl, step).ps[p];
      if step.By? && step.p == p && (step.move.Forfeit? || step.move.Finish?) then
        me'.closing.Closed? && Owes(me) == step.move.Forfeit?
      else Leaving(me') && Owes(me') == Owes(me)
  {
    hide MayGrant;
    assert Good(s, p);
  }

  lemma {:induction false} NothingLeftToDo(s: State, ttl: nat -> int, steps: seq<Step>, p: nat)
    requires Invariant(s) && p < |s.ps| && s.ps[p].closing.Closed? && Run(s, ttl, steps).Some?
    ensures !Forfeits(steps, p) && !Finishes(steps, p)
    decreases |steps|
  {
    if steps != [] {
      ClosedStays(s, ttl, steps[0], p);
      NextKeeps(s, ttl, steps[0]);
      NothingLeftToDo(Next(s, ttl, steps[0]), ttl, steps[1..], p);
      HeadOrTail(steps, p);
    }
  }

  lemma ClosedStays(s: State, ttl: nat -> int, step: Step, p: nat)
    requires Invariant(s) && p < |s.ps| && Enabled(s, step) && s.ps[p].closing.Closed?
    ensures |Next(s, ttl, step).ps| == |s.ps| && Next(s, ttl, step).ps[p].closing.Closed?
    ensures !(step.By? && step.p == p && (step.move.Forfeit? || step.move.Finish?))
  {}

  lemma HeadOrTail(steps: seq<Step>, p: nat)
    requires steps != []
    ensures
      Forfeits(steps, p) <==>
      (steps[0].By? && steps[0].p == p && steps[0].move.Forfeit?) || Forfeits(steps[1..], p)
    ensures Finishes(steps, p) <==> steps[0] == By(p, Finish) || Finishes(steps[1..], p)
  {
    assert forall i | 1 <= i < |steps| :: steps[i] == steps[1..][i - 1];
    if Forfeits(steps[1..], p) {
      var i :| 0 <= i < |steps[1..]| && steps[1..][i].By? && steps[1..][i].p == p && steps[1..][i].move.Forfeit?;
      assert steps[i + 1] == steps[1..][i];
    }
    if Finishes(steps[1..], p) {
      var i :| 0 <= i < |steps[1..]| && steps[1..][i] == By(p, Finish);
      assert steps[i + 1] == steps[1..][i];
    }
  }

  /** In every interleaving, a participant whose loop has been joined gets to the end of Close by
      forfeiting its lease if it was flagged then, and without if it was not. */
  lemma {:induction false} ForfeitsIffItWasLeader(s: State, ttl: nat -> int, steps: seq<Step>, p: nat)
    requires Invariant(s) && p < |s.ps| && Leaving(s.ps[p]) && Run(s, ttl, steps).Some?
    ensures
      var s' := Run(s, ttl, steps).value;
      |s'.ps| == |s.ps|
      && (Forfeits(steps, p) <==> s'.ps[p].closing.Closed? && Owes(s.ps[p]))
      && (Finishes(steps, p) <==> s'.ps[p].closing.Closed? && !Owes(s.ps[p]))
    decreases |steps|
  {
    hide Enabled, Next, Invariant, Forfeits, Finishes;
    if steps == [] {
      NoSteps(p);
    } else {
      var s' := Next(s, ttl, steps[0]);
      LeavingStep(s, ttl, steps[0], p);
      NextKeeps(s, ttl, steps[0]);
      HeadOrTail(steps, p);
      if Leaving(s'.ps[p]) {
        ForfeitsIffItWasLeader(s', ttl, steps[1..], p);
      } else {
        NothingLeftToDo(s', ttl, steps[1..], p);
        ClosedIsFinal(s', ttl, steps[1..], p);
      }
    }
  }

  lemma NoSteps(p: nat)
    ensures !Forfeits([], p) && !Finishes([], p)
  {}

  /** When a forfeit releases the participant's lease the lock is free, and any other whose loop still
      runs becomes leader by its own steps with no time passing.  A forfeit that fails changes
      nothing at the lock. */
  lemma ForfeitMakesRoom(s: State, ttl: nat -> int, p: nat, released: bool)
    requires Enabled(s, By(p, Forfeit(released)))
    ensures
      var s' := Next(s, ttl, By(p, Forfeit(released)));
      if released && s.lock.Some? && s.lock.value.holder == p then
        s'.lock == None
        && forall q | 0 <= q < |s'.ps| && !s'.ps[q].loop.Exited? ::
             Run(s', ttl, Attempt(s'.ps[q], q)).Some?
             && Promoted(s', Run(s', ttl, Attempt(s'.ps[q], q)).value, q)
      else s'.lock == s.lock
  {
    hide Run, Promoted, Attempt;
    var s' := Next(s, ttl, By(p, Forfeit(released)));
    if s'.lock == None {
      forall q | 0 <= q < |s'.ps| && !s'.ps[q].loop.Exited?
        ensures Run(s', ttl, Attempt(s'.ps[q], q)).Some?
        ensures Promoted(s', Run(s', ttl, Attempt(s'.ps[q], q)).value, q)
      {
        AttemptLeads(s', ttl, q);
      }
    }
  }

  // ---------- Close comes to an end ----------

  /** What the participant, or the lock if it has been called, can do next towards the end. */
  function Onward(me: Participant): Move
    requires !me.closing.Open? && !me.closing.Closed?
  {
    if !me.loop.Exited? then
      match me.loop
      case Calling => Deny
      case Answered(_) => Store
      case _ => Exit
    else
      match me.closing
      case Signalled => Join
      case Joined => ReadFlag
      case Read(_) => ClearFlag
      case Cleared(wasLeader) => if wasLeader then Forfeit(true) else Finish
  }

  function Remaining(me: Participant): nat {
    (match me.loop
     case Calling => 3
     case Answered(_) => 2
     case Waiting => 1
     case Exited => 0)
    + (match me.closing
       case Open => 5
       case Signalled => 4
       case Joined => 3
       case Read(_) => 2
       case Cleared(_) => 1
       case Closed => 0)
  }

  lemma OnwardStep(s: State, ttl: nat -> int, p: nat)
    requires Invariant(s) && p < |s.ps| && !s.ps[p].closing.Open? && !s.ps[p].closing.Closed?
    ensures
      var step := By(p, Onward(s.ps[p]));
      Enabled(s, step)
      && |Next(s, ttl, step).ps| == |s.ps| && Next(s, ttl, step).now == s.now
      && !Next(s, ttl, step).ps[p].closing.Open?
      && Remaining(Next(s, ttl, step).ps[p]) < Remaining(s.ps[p])
  {
    assert Good(s, p);
  }

  /** From wherever a Close that has begun is, the participant reaches its end by its own steps, once
      the lock has answered a call that is under way. */
  lemma {:induction false} CloseCanEnd(s: State, ttl: nat -> int, p: nat) returns (steps: seq<Step>)
    requires Invariant(s) && p < |s.ps| && !s.ps[p].closing.Open?
    ensures StepsOf(p, steps) && Run(s, ttl, steps).Some?
    ensures
      var s' := Run(s, ttl, steps).value;
      p < |s'.ps| && s'.now == s.now && s'.ps[p].closing.Closed?
    decreases Remaining(s.ps[p])
  {
    hide Enabled, Next, Invariant, Onward, Remaining;
    if s.ps[p].closing.Closed? {
      steps := [];
    } else {
      var step := By(p, Onward(s.ps[p]));
      OnwardStep(s, ttl, p);
      NextKeeps(s, ttl, step);
      var rest := CloseCanEnd(Next(s, ttl, step), ttl, p);
      RunCons(s, ttl, step, rest);
      steps := [step] + rest;
    }
  }

  // ---------- Until then ----------

  predicate RunsUntilClosed(me: Participant) {
    me.loop.Exited? ==> !me.closing.Open?
  }

  lemma StepRunsUntilClosed(s: State, ttl: nat -> int, step: Step, p: nat)
    requires p < |s.ps| && Enabled(s, step) && RunsUntilClosed(s.ps[p])
    ensures |Next(s, ttl, step).ps| == |s.ps| && RunsUntilClosed(Next(s, ttl, step).ps[p])
  {
    hide MayGrant;
  }

  /** The loop goes on as long as Close has not been called. */
  lemma {:induction false} LoopRunsUntilClosed(s: State, ttl: nat -> int, steps: seq<Step>, p: nat)
    requires p < |s.ps| && RunsUntilClosed(s.ps[p]) && Run(s, ttl, steps).Some?
    ensures var s' := Run(s, ttl, steps).value; |s'.ps| == |s.ps| && RunsUntilClosed(s'.ps[p])
    decreases |steps|
  {
    hide Enabled, Next;
    if steps != [] {
      StepRunsUntilClosed(s, ttl, steps[0], p);
      LoopRunsUntilClosed(Next(s, ttl, steps[0]), ttl, steps[1..], p);
    }
  }
}
