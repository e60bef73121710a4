/** etcpal_queue_reset among the other threads: what it leaves behind and exactly when it can end. */
module QueueReset {
  import opened QueueRing
  import opened QueueProtocol

  // ---------- what a reset leaves ----------

  lemma {:induction false} ResetBalance(n: Tally, n1: Tally, s: Sys, a: Step)
    requires Ready(n, n1, s, a) && a.ResetEnd?
    ensures s.filled == 0 && n1.Unannounced() == 0 && n1.Promised() == 0
    ensures s.available + n1.sReserved + n1.rReleased == s.max
    ensures s.lock == 0
  {
  }

  lemma {:induction false} ResetHistory(s: Sys, a: Step)
    requires History(s) && Enabled(s, a) && a.ResetEnd?
    ensures var s1 := Next(s, a);
            && s1.ring == Empty(s.ring.slots) && Content(s1.ring) == []
            && s1.gone == s.gone + Drops(Content(s.ring)) && s1.sent == s.sent
            && s1.filled == s.filled && s1.available == s.available && s1.max == s.max
            && s1.lock == Post(s.lock, 1)
  {
  }

  /** A reset that comes to its end drops exactly what the queue held, in order, and leaves the empty
      state: nothing is announced, promised or about to be announced. */
  lemma {:induction false} ResetEmpties(s: Sys, a: Step)
    requires Inv(s) && Enabled(s, a) && a.ResetEnd?
    ensures var s1 := Next(s, a); var n := Count(s1.phases);
            && s1.ring == Empty(s.ring.slots) && Content(s1.ring) == []
            && s1.gone == s.gone + Drops(Content(s.ring)) && s1.sent == s.sent
            && s1.filled == 0 && n.Unannounced() == 0 && n.Promised() == 0
            && s1.available + n.sReserved + n.rReleased == s1.max
            && s1.lock == 1
  {
    Prepared(s, a);
    ResetBalance(Count(s.phases), Count(Next(s, a).phases), s, a);
    ResetHistory(s, a);
  }

  ghost predicate Resets(s: Sys, z: Tid) {
    PhaseOf(s.phases, z) == ZLocked || PhaseOf(s.phases, z) == ZTaken
  }

  // ---------- nobody else holds the lock ----------

  predicate Holds(p: Phase) {
    p != Idle && p != SReserved && p != SReleased && p != RReserved && p != RReleased
  }

  lemma {:induction false} Pair(phases: seq<Phase>, t: Tid, u: Tid)
    requires t < |phases| && u < |phases| && t != u && phases[t] == phases[u] != Idle
    ensures N(phases, phases[t]) >= 2
  {
    Moved(phases, t, Idle, phases[t]);
    Counted(phases[t := Idle], u);
  }

  /** Only one thread is in a phase in which it holds the lock, and the lock is taken then. */
  lemma {:induction false} OneHolder(s: Sys, t: Tid, u: Tid)
    requires Counts(s) && Holds(PhaseOf(s.phases, t)) && Holds(PhaseOf(s.phases, u))
    ensures t == u && s.lock == 0
  {
    Present(s.phases, t);
    Present(s.phases, u);
    if t != u && s.phases[t] == s.phases[u] { Pair(s.phases, t, u); }
  }

  // ---------- a receiver that waits for the lock ----------

  lemma {:induction false} Blocked(s: Sys, z: Tid, r: Tid)
    requires Inv(s) && Resets(s, z) && PhaseOf(s.phases, r) == RReserved
    ensures s.lock == 0 && s.done < s.ring.size
  {
    Present(s.phases, z);
    Present(s.phases, r);
  }

  /** A receiver that has taken spots_filled but not the lock blocks a reset for good: whatever
      happens next, the receiver still waits for the lock and the reset has not ended. */
  lemma {:induction false} ResetStuck(s: Sys, a: Step, z: Tid, r: Tid)
    requires Inv(s) && Enabled(s, a)
    requires Resets(s, z)
    requires PhaseOf(s.phases, r) == RReserved
    ensures !a.ResetEnd?
    ensures PhaseOf(Next(s, a).phases, r) == RReserved
    ensures Resets(Next(s, a), z)
  {
    Blocked(s, z, r);
  }

  lemma {:induction false} ResetStuckForever(run: seq<Sys>, steps: seq<Step>, z: Tid, r: Tid, i: nat)
    requires IsRun(run, steps) && Inv(run[0]) && i < |run|
    requires Resets(run[0], z)
    requires PhaseOf(run[0].phases, r) == RReserved
    ensures Inv(run[i])
    ensures Resets(run[i], z)
    ensures PhaseOf(run[i].phases, r) == RReserved
  {
    if i > 0 {
      ResetStuckForever(run, steps, z, r, i - 1);
      RunStep(run, steps, i);
      ResetStuck(run[i - 1], steps[i - 1], z, r);
      StepKeeps(run[i - 1], steps[i - 1]);
    }
  }

  // ---------- how much a reset still has to do ----------

  /** The steps of thread z that belong to its reset. */
  predicate Own(a: Step, z: Tid) {
    a == ResetTake(z) || a == ResetPost(z) || a == ResetEnd(z)
  }

  /** Own steps to come before the last one. */
  function OwnWork(s: Sys, z: Tid): int {
    2 * (s.ring.size - s.done) - if PhaseOf(s.phases, z) == ZTaken then 1 else 0
  }

  /** What can happen while z resets: its own steps, and the others waiting for or posting the two
      counting semaphores. */
  predicate Meanwhile(a: Step, z: Tid) {
    if a.t == z then Own(a, z) else a.SendWait? || a.SendNotify? || a.RecvWait? || a.RecvNotify?
  }

  lemma {:induction false} OnlyMeanwhile(s: Sys, a: Step, z: Tid)
    requires Counts(s) && Enabled(s, a) && Resets(s, z)
    ensures Meanwhile(a, z)
  {
    OneHolder(s, z, z);
    if Holds(From(a)) { OneHolder(s, z, a.t); }
  }

  lemma {:induction false} MeanwhileWork(s: Sys, a: Step, z: Tid)
    requires Enabled(s, a) && Meanwhile(a, z) && Resets(s, z) && a != ResetEnd(z)
    ensures Resets(Next(s, a), z) && Next(s, a).ring == s.ring
    ensures OwnWork(Next(s, a), z) == OwnWork(s, z) - if Own(a, z) then 1 else 0
  {
  }

  lemma {:induction false} MeanwhileCounts(s: Sys, a: Step, z: Tid)
    requires Enabled(s, a) && Meanwhile(a, z)
    ensures N(Next(s, a).phases, SReleased) == N(s.phases, SReleased) - if a.SendNotify? then 1 else 0
    ensures N(Next(s, a).phases, RReserved) == N(s.phases, RReserved) + if a.RecvWait? then 1 else 0
  {
    Moved(s.phases, a.t, To(a), SReleased);
    Moved(s.phases, a.t, To(a), RReserved);
  }

  /** Each step of the reset takes one off its work, each announcement of a sender one off those
      outstanding, and nothing adds to either. */
  lemma {:induction false} ResetStep(s: Sys, a: Step, z: Tid)
    requires Inv(s) && Enabled(s, a) && Resets(s, z) && a != ResetEnd(z)
    ensures Resets(Next(s, a), z) && Next(s, a).ring == s.ring
    ensures OwnWork(Next(s, a), z) == OwnWork(s, z) - if Own(a, z) then 1 else 0
    ensures N(Next(s, a).phases, SReleased) == N(s.phases, SReleased) - if a.SendNotify? then 1 else 0
    ensures N(Next(s, a).phases, RReserved) == N(s.phases, RReserved) + if a.RecvWait? then 1 else 0
  {
    OnlyMeanwhile(s, a, z);
    MeanwhileWork(s, a, z);
    MeanwhileCounts(s, a, z);
  }

  lemma {:induction false} WorkIsNatural(s: Sys, z: Tid)
    requires Inv(s) && Resets(s, z)
    ensures 0 <= OwnWork(s, z) <= 2 * s.ring.size
  {
    Present(s.phases, z);
  }

  function OwnSteps(steps: seq<Step>, z: Tid): nat {
    if steps == [] then 0
    else OwnSteps(steps[..|steps| - 1], z) + if Own(steps[|steps| - 1], z) then 1 else 0
  }

  function Announcements(steps: seq<Step>): nat {
    if steps == [] then 0
    else Announcements(steps[..|steps| - 1]) + if steps[|steps| - 1].SendNotify? then 1 else 0
  }

  /** The first i steps of a run do not end the reset of z. */
  predicate Unfinished(steps: seq<Step>, z: Tid, i: nat)
    requires i <= |steps|
  {
    forall j :: 0 <= j < i ==> steps[j] != ResetEnd(z)
  }

  /** In every interleaving the work done and the work left add up, and without a RecvWait no receiver
      comes between its wait and its lock. */
  lemma {:induction false} ResetWorks(run: seq<Sys>, steps: seq<Step>, z: Tid, i: nat)
    requires IsRun(run, steps) && Inv(run[0]) && Resets(run[0], z) && i <= |steps| && Unfinished(steps, z, i)
    ensures Inv(run[i]) && Resets(run[i], z) && run[i].ring == run[0].ring
    ensures OwnSteps(steps[..i], z) + OwnWork(run[i], z) == OwnWork(run[0], z)
    ensures Announcements(steps[..i]) + N(run[i].phases, SReleased) == N(run[0].phases, SReleased)
    ensures (forall j :: 0 <= j < i ==> !steps[j].RecvWait?) ==>
              N(run[i].phases, RReserved) == N(run[0].phases, RReserved)
  {
    if i > 0 {
      ResetWorks(run, steps, z, i - 1);
      RunStep(run, steps, i);
      OneMore(steps, z, i - 1);
      ResetStep(run[i - 1], steps[i - 1], z);
      StepKeeps(run[i - 1], steps[i - 1]);
    }
  }

  /** Whatever the other threads do, a reset takes at most 2 * size + 1 steps of its own. */
  lemma {:induction false} ResetIsShort(run: seq<Sys>, steps: seq<Step>, z: Tid, i: nat)
    requires IsRun(run, steps) && Inv(run[0]) && Resets(run[0], z) && i < |steps| && Unfinished(steps, z, i)
    ensures OwnSteps(steps[..i + 1], z) <= 2 * run[0].ring.size + 1
  {
    ResetWorks(run, steps, z, i);
    WorkIsNatural(run[i], z);
    WorkIsNatural(run[0], z);
    OneMore(steps, z, i);
  }

  lemma {:induction false} OneMore(steps: seq<Step>, z: Tid, i: nat)
    requires i < |steps|
    ensures OwnSteps(steps[..i + 1], z) == OwnSteps(steps[..i], z) + if Own(steps[i], z) then 1 else 0
    ensures Announcements(steps[..i + 1]) == Announcements(steps[..i]) + if steps[i].SendNotify? then 1 else 0
  {
    assert steps[..i + 1][..i] == steps[..i];
  }

  // ---------- exactly when a reset can end ----------

  /** Without a receiver between its wait and its lock, the reset itself can go on or a sender can announce
      its element. */
  lemma {:induction false} ResetAdvances(s: Sys, z: Tid) returns (a: Step)
    requires Inv(s) && Resets(s, z) && N(s.phases, RReserved) == 0
    ensures Enabled(s, a) && (Own(a, z) || a.SendNotify?)
  {
    OneHolder(s, z, z);
    Present(s.phases, z);
    if PhaseOf(s.phases, z) == ZTaken {
      a := ResetPost(z);
    } else if s.done >= s.ring.size {
      a := ResetEnd(z);
    } else if s.filled > 0 {
      a := ResetTake(z);
    } else {
      assert N(s.phases, SReleased) > 0;
      var t := SomeoneIn(s.phases, SReleased);
      a := SendNotify(t);
    }
  }

  /** In every interleaving without a RecvWait, as long as the reset has not ended, one of the steps that
      ResetWorks counts is possible: they run out, so the reset ends when these threads go on. */
  lemma {:induction false} ResetNeverBlocked(run: seq<Sys>, steps: seq<Step>, z: Tid, i: nat) returns (a: Step)
    requires IsRun(run, steps) && Inv(run[0]) && Resets(run[0], z) && i <= |steps| && Unfinished(steps, z, i)
    requires N(run[0].phases, RReserved) == 0 && forall j :: 0 <= j < i ==> !steps[j].RecvWait?
    ensures Enabled(run[i], a) && (Own(a, z) || a.SendNotify?)
    ensures OwnSteps(steps[..i], z) + Announcements(steps[..i])
         <= 2 * run[0].ring.size + N(run[0].phases, SReleased)
  {
    ResetWorks(run, steps, z, i);
    WorkIsNatural(run[i], z);
    WorkIsNatural(run[0], z);
    a := ResetAdvances(run[i], z);
  }

  /** Some run from s contains the end of the reset of z. */
  ghost predicate CanEnd(s: Sys, z: Tid) {
    exists run: seq<Sys>, steps: seq<Step> :: IsRun(run, steps) && run[0] == s && Ends(steps, z)
  }

  predicate Ends(steps: seq<Step>, z: Tid) {
    exists i :: 0 <= i < |steps| && steps[i] == ResetEnd(z)
  }

  lemma {:induction false} Prepend(s: Sys, a: Step, run: seq<Sys>, steps: seq<Step>)
    requires IsRun(run, steps) && Enabled(s, a) && run[0] == Next(s, a)
    ensures IsRun([s] + run, [a] + steps)
  {
    var run1, steps1 := [s] + run, [a] + steps;
    forall i | 0 <= i < |steps1|
      ensures Enabled(run1[i], steps1[i]) && run1[i + 1] == Next(run1[i], steps1[i])
    {
      if i > 0 {
        assert Enabled(run[i - 1], steps[i - 1]) && run[i - 1 + 1] == Next(run[i - 1], steps[i - 1]);
      }
    }
  }

  lemma {:induction false} ResetFinishes(s: Sys, z: Tid) returns (run: seq<Sys>, steps: seq<Step>)
    requires Inv(s) && Resets(s, z) && N(s.phases, RReserved) == 0
    ensures IsRun(run, steps) && run[0] == s && |steps| > 0 && steps[|steps| - 1] == ResetEnd(z)
    decreases OwnWork(s, z) + N(s.phases, SReleased)
  {
    var a := ResetAdvances(s, z);
    var s1 := Next(s, a);
    if a == ResetEnd(z) {
      run, steps := [s, s1], [a];
    } else {
      ResetStep(s, a, z);
      StepKeeps(s, a);
      WorkIsNatural(s, z);
      WorkIsNatural(s1, z);
      var run1, steps1 := ResetFinishes(s1, z);
      Prepend(s, a, run1, steps1);
      run, steps := [s] + run1, [a] + steps1;
    }
  }

  /** A reset can still end if and only if no receiver is between its wait and its lock. */
  lemma {:induction false} ResetEndsIff(s: Sys, z: Tid)
    requires Inv(s) && Resets(s, z)
    ensures CanEnd(s, z) <==> N(s.phases, RReserved) == 0
  {
    if N(s.phases, RReserved) == 0 {
      var run, steps := ResetFinishes(s, z);
      assert IsRun(run, steps) && Ends(steps, z);
    } else {
      var r := SomeoneIn(s.phases, RReserved);
      forall run: seq<Sys>, steps: seq<Step> | IsRun(run, steps) && run[0] == s
        ensures !Ends(steps, z)
      {
        NeverEnds(run, steps, z, r);
      }
    }
  }

  /** One receiver taking spots_filled while a reset runs is enough to block it for good. */
  lemma {:induction false} ReceiverBlocks(s: Sys, t: Tid, z: Tid)
    requires Inv(s) && Resets(s, z) && Enabled(s, RecvWait(t))
    ensures Inv(Next(s, RecvWait(t))) && Resets(Next(s, RecvWait(t)), z) && !CanEnd(Next(s, RecvWait(t)), z)
  {
    ResetStep(s, RecvWait(t), z);
    StepKeeps(s, RecvWait(t));
    ResetEndsIff(Next(s, RecvWait(t)), z);
  }

  lemma {:induction false} NeverEnds(run: seq<Sys>, steps: seq<Step>, z: Tid, r: Tid)
    requires IsRun(run, steps) && Inv(run[0]) && Resets(run[0], z) && PhaseOf(run[0].phases, r) == RReserved
    ensures !Ends(steps, z)
  {
    forall i | 0 <= i < |steps|
      ensures steps[i] != ResetEnd(z)
    {
      ResetStuckForever(run, steps, z, r, i);
      RunStep(run, steps, i + 1);
      ResetStuck(run[i], steps[i], z, r);
    }
  }

  // ---------- a reset that cannot end ----------

  lemma {:induction false} Extend(run: seq<Sys>, steps: seq<Step>, a: Step, s: Sys)
    returns (run1: seq<Sys>, steps1: seq<Step>)
    requires IsRun(run, steps) && Enabled(run[|steps|], a) && s == Next(run[|steps|], a)
    ensures IsRun(run1, steps1) && run1[0] == run[0] && run1[|steps1|] == s
  {
    run1, steps1 := run + [s], steps + [a];
    forall i | 0 <= i < |steps1|
      ensures Enabled(run1[i], steps1[i]) && run1[i + 1] == Next(run1[i], steps1[i])
    {
      if i < |steps| { assert Enabled(run[i], steps[i]) && run[i + 1] == Next(run[i], steps[i]); }
    }
  }

  lemma {:induction false} StoresOne(slots: seq<Item>, x: Item) returns (run: seq<Sys>, steps: seq<Step>)
    requires |slots| == 2
    ensures IsRun(run, steps) && run[0] == Created(1, slots, 3)
    ensures run[|steps|] ==
            Sys(1, Ring(slots[0 := x], 1, 0, 1), 0, 0, 0, [SStored, Idle, Idle], map[0 := x], map[], 0, [x], [])
  {
    var r0, r1 := Empty(slots), Ring(slots[0 := x], 1, 0, 1);
    var items := map[0 := x];
    run, steps := [Created(1, slots, 3)], [];
    run, steps := Extend(run, steps, SendWait(0, x),
                         Sys(1, r0, 1, 0, 0, [SReserved, Idle, Idle], items, map[], 0, [], []));
    run, steps := Extend(run, steps, SendLock(0), Sys(1, r0, 0, 0, 0, [SLocked, Idle, Idle], items, map[], 0, [], []));
    run, steps := Extend(run, steps, SendStore(0), Sys(1, r1, 0, 0, 0, [SStored, Idle, Idle], items, map[], 0, [x], []));
  }

  lemma {:induction false} SendsOne(slots: seq<Item>, x: Item) returns (run: seq<Sys>, steps: seq<Step>)
    requires |slots| == 2
    ensures IsRun(run, steps) && run[0] == Created(1, slots, 3)
    ensures run[|steps|] ==
            Sys(1, Ring(slots[0 := x], 1, 0, 1), 1, 0, 1, [Idle, Idle, Idle], map[0 := x], map[], 0, [x], [])
  {
    var r1 := Ring(slots[0 := x], 1, 0, 1);
    var items := map[0 := x];
    run, steps := StoresOne(slots, x);
    run, steps := Extend(run, steps, SendUnlock(0),
                         Sys(1, r1, 1, 0, 0, [SReleased, Idle, Idle], items, map[], 0, [x], []));
    run, steps := Extend(run, steps, SendNotify(0), Sys(1, r1, 1, 0, 1, [Idle, Idle, Idle], items, map[], 0, [x], []));
  }

  /** Such a state is reached: thread 0 has sent an element, thread 1 has taken spots_filled, and
      thread 2 has begun a reset. */
  lemma {:induction false} ResetCanGetStuck(slots: seq<Item>, x: Item) returns (run: seq<Sys>, steps: seq<Step>)
    requires |slots| == 2
    ensures IsRun(run, steps) && run[0] == Created(1, slots, 3)
    ensures Resets(run[|steps|], 2) && PhaseOf(run[|steps|].phases, 1) == RReserved
  {
    var r, items := Ring(slots[0 := x], 1, 0, 1), map[0 := x];
    run, steps := SendsOne(slots, x);
    run, steps := Extend(run, steps, RecvWait(1),
                         Sys(1, r, 1, 0, 0, [Idle, RReserved, Idle], items, map[], 0, [x], []));
    run, steps := Extend(run, steps, ResetLock(2),
                         Sys(1, r, 0, 0, 0, [Idle, RReserved, ZLocked], items, map[], 0, [x], []));
  }
}
