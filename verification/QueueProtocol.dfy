/** The bounded queue as a system of interleaved steps: any number of threads send, receive, query
    and reset, each going through the semaphore operations one at a time. */
module QueueProtocol {
  import opened QueueRing

  /** How far a thread has got in the call it is in. */
  datatype Phase =
    | Idle
    | SReserved  // push: spots_available was taken
    | SLocked    // push: the lock is held
    | SStored    // push: the element is stored, the lock still held
    | SReleased  // push: unlocked, spots_filled not yet posted
    | RReserved  // pop: spots_filled was taken
    | RLocked
    | RPopped
    | RReleased  // pop: unlocked, spots_available not yet posted
    | QLocked    // a size query
    | ZLocked    // reset: at the head of its loop
    | ZTaken     // reset: spots_filled taken, spots_available not yet posted

  type Tid = nat

  /** What has left the queue. */
  datatype Gone = Received(item: Item) | Dropped(item: Item)

  datatype Sys = Sys(
    max: nat,
    ring: Ring,
    lock: nat, available: nat, filled: nat,  // the semaphore counts
    phases: seq<Phase>,                      // one for each thread, any number of them
    items: map<Tid, Item>,                   // what each thread is sending or has received
    reports: map<Tid, nat>,                  // what each thread's last query has read
    done: nat,                               // full iterations of a reset in progress
    sent: seq<Item>, gone: seq<Gone>)        // in the order in which the lock was held

  datatype Step =
    | SendWait(t: Tid, x: Item) | SendLock(t: Tid) | SendStore(t: Tid) | SendUnlock(t: Tid) | SendNotify(t: Tid)
    | RecvWait(t: Tid) | RecvLock(t: Tid) | RecvTake(t: Tid) | RecvUnlock(t: Tid) | RecvNotify(t: Tid)
    | QueryLock(t: Tid) | QueryUnlock(t: Tid)
    | ResetLock(t: Tid) | ResetTake(t: Tid) | ResetPost(t: Tid) | ResetEnd(t: Tid)

  function PhaseOf(phases: seq<Phase>, t: Tid): Phase {
    if t < |phases| then phases[t] else Idle
  }

  function AllIdle(threads: nat): seq<Phase> {
    seq(threads, _ => Idle)
  }

  /** etcpal_queue_create */
  function Created(size: nat, slots: seq<Item>, threads: nat): Sys
    requires |slots| == size + 1
  {
    Sys(size, Empty(slots), 1, size, 0, AllIdle(threads), map[], map[], 0, [], [])
  }

  /** A semaphore at its maximum refuses a post. */
  function Post(count: nat, limit: nat): nat {
    if count < limit then count + 1 else count
  }

  // ---------- one step ----------

  function From(a: Step): Phase {
    match a
    case SendWait(_, _) => Idle
    case SendLock(_) => SReserved
    case SendStore(_) => SLocked
    case SendUnlock(_) => SStored
    case SendNotify(_) => SReleased
    case RecvWait(_) => Idle
    case RecvLock(_) => RReserved
    case RecvTake(_) => RLocked
    case RecvUnlock(_) => RPopped
    case RecvNotify(_) => RReleased
    case QueryLock(_) => Idle
    case QueryUnlock(_) => QLocked
    case ResetLock(_) => Idle
    case ResetTake(_) => ZLocked
    case ResetPost(_) => ZTaken
    case ResetEnd(_) => ZLocked
  }

  function To(a: Step): Phase {
    match a
    case SendWait(_, _) => SReserved
    case SendLock(_) => SLocked
    case SendStore(_) => SStored
    case SendUnlock(_) => SReleased
    case SendNotify(_) => Idle
    case RecvWait(_) => RReserved
    case RecvLock(_) => RLocked
    case RecvTake(_) => RPopped
    case RecvUnlock(_) => RReleased
    case RecvNotify(_) => Idle
    case QueryLock(_) => QLocked
    case QueryUnlock(_) => Idle
    case ResetLock(_) => ZLocked
    case ResetTake(_) => ZTaken
    case ResetPost(_) => ZLocked
    case ResetEnd(_) => Idle
  }

  /** The thread is where the step starts, the semaphore it waits for is not at zero, and what it accesses
      exists, which the invariant below always provides. */
  predicate Enabled(s: Sys, a: Step) {
    && a.t < |s.phases| && s.phases[a.t] == From(a)
    && (a.SendWait? ==> s.available > 0)
    && (a.RecvWait? || a.ResetTake? ==> s.filled > 0)
    && (a.SendLock? || a.RecvLock? || a.QueryLock? || a.ResetLock? ==> s.lock > 0)
    && (a.SendStore? ==> a.t in s.items)
    && (a.SendStore? || a.RecvTake? || a.ResetEnd? ==> InBounds(s.ring))
    && (a.ResetTake? ==> s.done < s.ring.size)
    && (a.ResetEnd? ==> s.done >= s.ring.size)
  }

  /** "queue_size--" on a size_t; the invariant shows that it never wraps. */
  function Pop(r: Ring): Ring
    requires r.tail < |r.slots|
  {
    if r.size > 0 then Taken(r) else r
  }

  function Act(s: Sys, a: Step): Sys
    requires Enabled(s, a)
  {
    match a
    case SendWait(t, x) => s.(available := s.available - 1, items := s.items[t := x])
    case SendStore(t) => s.(ring := Stored(s.ring, s.items[t]), sent := s.sent + [s.items[t]])
    case SendNotify(_) => s.(filled := Post(s.filled, s.max))
    case RecvWait(_) => s.(filled := s.filled - 1)
    case RecvTake(t) =>
      var x := s.ring.slots[s.ring.tail];
      s.(ring := Pop(s.ring), items := s.items[t := x], gone := s.gone + [Received(x)])
    case RecvNotify(_) => s.(available := Post(s.available, s.max))
    case ResetTake(_) => s.(filled := s.filled - 1)
    case ResetPost(_) => s.(available := Post(s.available, s.max), done := s.done + 1)
    case ResetEnd(_) =>
      s.(ring := Empty(s.ring.slots), done := 0, lock := Post(s.lock, 1),
         gone := s.gone + Drops(Content(s.ring)))
    case SendLock(_) => s.(lock := s.lock - 1)
    case RecvLock(_) => s.(lock := s.lock - 1)
    case QueryLock(_) => s.(lock := s.lock - 1)
    case ResetLock(_) => s.(lock := s.lock - 1)
    case SendUnlock(_) => s.(lock := Post(s.lock, 1))
    case RecvUnlock(_) => s.(lock := Post(s.lock, 1))
    case QueryUnlock(t) => s.(lock := Post(s.lock, 1), reports := s.reports[t := s.ring.size])
  }

  function Next(s: Sys, a: Step): Sys
    requires Enabled(s, a)
  {
    Act(s, a).(phases := s.phases[a.t := To(a)])
  }

  function Drops(xs: seq<Item>): seq<Gone> {
    seq(|xs|, i requires 0 <= i < |xs| => Dropped(xs[i]))
  }

  function Items(g: seq<Gone>): seq<Item> {
    seq(|g|, i requires 0 <= i < |g| => g[i].item)
  }

  // ---------- counting threads ----------

  function N(phases: seq<Phase>, p: Phase): nat {
    if phases == [] then 0 else N(phases[1..], p) + if phases[0] == p then 1 else 0
  }

  /** What one thread going from one phase to another does to the number of threads in phase p. */
  function Change(p: Phase, from: Phase, to: Phase): int {
    (if p == to then 1 else 0) - (if p == from then 1 else 0)
  }

  lemma {:induction false} Moved(phases: seq<Phase>, t: Tid, to: Phase, p: Phase)
    requires t < |phases|
    ensures N(phases[t := to], p) == N(phases, p) + Change(p, phases[t], to)
    decreases t
  {
    if t == 0 {
      assert phases[0 := to][1..] == phases[1..];
    } else {
      assert phases[t := to][1..] == phases[1..][t - 1 := to];
      Moved(phases[1..], t - 1, to, p);
    }
  }

  lemma {:induction false} Counted(phases: seq<Phase>, t: Tid)
    requires t < |phases|
    ensures N(phases, phases[t]) > 0
    decreases t
  {
    if t > 0 { Counted(phases[1..], t - 1); }
  }

  lemma {:induction false} SomeoneIn(phases: seq<Phase>, p: Phase) returns (t: Tid)
    requires N(phases, p) > 0
    ensures t < |phases| && phases[t] == p
  {
    if phases[0] == p {
      t := 0;
    } else {
      var u := SomeoneIn(phases[1..], p);
      t := u + 1;
    }
  }

  predicate AllAre(phases: seq<Phase>, p: Phase) {
    forall t: Tid :: t < |phases| ==> phases[t] == p
  }

  lemma {:induction false} NobodyIn(phases: seq<Phase>, p: Phase)
    requires AllAre(phases, Idle) && p != Idle
    ensures N(phases, p) == 0
  {
    if phases != [] { NobodyIn(phases[1..], p); }
  }

  /** How many threads are in each phase but Idle. */
  datatype Tally = Tally(sReserved: int, sLocked: int, sStored: int, sReleased: int,
                         rReserved: int, rLocked: int, rPopped: int, rReleased: int,
                         qLocked: int, zLocked: int, zTaken: int)
  {
    function Of(p: Phase): int {
      match p
      case Idle => 0
      case SReserved => sReserved
      case SLocked => sLocked
      case SStored => sStored
      case SReleased => sReleased
      case RReserved => rReserved
      case RLocked => rLocked
      case RPopped => rPopped
      case RReleased => rReleased
      case QLocked => qLocked
      case ZLocked => zLocked
      case ZTaken => zTaken
    }

    /** This tally after one thread went from one phase to another. */
    predicate Becomes(n: Tally, from: Phase, to: Phase) {
      && n.sReserved == sReserved + Change(SReserved, from, to)
      && n.sLocked == sLocked + Change(SLocked, from, to)
      && n.sStored == sStored + Change(SStored, from, to)
      && n.sReleased == sReleased + Change(SReleased, from, to)
      && n.rReserved == rReserved + Change(RReserved, from, to)
      && n.rLocked == rLocked + Change(RLocked, from, to)
      && n.rPopped == rPopped + Change(RPopped, from, to)
      && n.rReleased == rReleased + Change(RReleased, from, to)
      && n.qLocked == qLocked + Change(QLocked, from, to)
      && n.zLocked == zLocked + Change(ZLocked, from, to)
      && n.zTaken == zTaken + Change(ZTaken, from, to)
    }

    /** Senders whose element is stored but not yet announced. */
    function Unannounced(): int { sStored + sReleased }

    /** Receivers that were promised an element they have not popped yet. */
    function Promised(): int { rReserved + rLocked }

    /** Senders that were promised a slot they have not filled yet. */
    function Reserved(): int { sReserved + sLocked }

    /** Receivers whose freed slot is not yet announced. */
    function Unreturned(): int { rPopped + rReleased }

    function Resetting(): int { zLocked + zTaken }

    function Holders(): int { sLocked + sStored + rLocked + rPopped + qLocked + Resetting() }
  }

  function Count(m: seq<Phase>): Tally {
    Tally(N(m, SReserved), N(m, SLocked), N(m, SStored), N(m, SReleased),
          N(m, RReserved), N(m, RLocked), N(m, RPopped), N(m, RReleased),
          N(m, QLocked), N(m, ZLocked), N(m, ZTaken))
  }

  lemma {:induction false} CountMoved(phases: seq<Phase>, t: Tid, to: Phase)
    requires t < |phases|
    ensures Count(phases).Becomes(Count(phases[t := to]), phases[t], to)
  {
    Moved(phases, t, to, SReserved);
    Moved(phases, t, to, SLocked);
    Moved(phases, t, to, SStored);
    Moved(phases, t, to, SReleased);
    Moved(phases, t, to, RReserved);
    Moved(phases, t, to, RLocked);
    Moved(phases, t, to, RPopped);
    Moved(phases, t, to, RReleased);
    Moved(phases, t, to, QLocked);
    Moved(phases, t, to, ZLocked);
    Moved(phases, t, to, ZTaken);
  }

  lemma {:induction false} Present(phases: seq<Phase>, t: Tid)
    requires PhaseOf(phases, t) != Idle
    ensures Count(phases).Of(PhaseOf(phases, t)) > 0
  {
    Counted(phases, t);
  }

  // ---------- the invariant ----------

  /** No count is negative. */
  predicate Natural(n: Tally) {
    && n.sReserved >= 0 && n.sLocked >= 0 && n.sStored >= 0 && n.sReleased >= 0
    && n.rReserved >= 0 && n.rLocked >= 0 && n.rPopped >= 0 && n.rReleased >= 0
    && n.qLocked >= 0 && n.zLocked >= 0 && n.zTaken >= 0
  }

  predicate LockBalanced(n: Tally, s: Sys) {
    s.lock + n.Holders() == 1
  }

  predicate FilledBalanced(n: Tally, s: Sys) {
    s.ring.size == s.filled + n.Unannounced() + n.Promised() + n.zTaken + s.done
  }

  predicate AvailableBalanced(n: Tally, s: Sys) {
    s.available + n.Reserved() + s.ring.size + n.Unreturned() == s.max + s.done
  }

  predicate Balanced(n: Tally, s: Sys) {
    && Natural(n)
    && LockBalanced(n, s) && FilledBalanced(n, s) && AvailableBalanced(n, s)
    && (n.Resetting() == 0 ==> s.done == 0)
  }

  predicate Counts(s: Sys) { Balanced(Count(s.phases), s) }

  ghost predicate History(s: Sys) {
    && RingOk(s.ring, s.max) && InBounds(s.ring)
    && Items(s.gone) + Content(s.ring) == s.sent
    && forall t :: PhaseOf(s.phases, t) == SReserved || PhaseOf(s.phases, t) == SLocked ==> t in s.items
  }

  ghost predicate Inv(s: Sys) { Counts(s) && History(s) }

  lemma {:induction false} CreatedInv(size: nat, slots: seq<Item>, threads: nat)
    requires |slots| == size + 1
    ensures Inv(Created(size, slots, threads))
  {
    var s := Created(size, slots, threads);
    CreatedBalance(Count(s.phases), s);
    CreatedHistory(s);
  }

  lemma {:induction false} CreatedHistory(s: Sys)
    requires AllAre(s.phases, Idle) && s.gone == [] && s.sent == []
    requires |s.ring.slots| == s.max + 1 && s.ring == Empty(s.ring.slots)
    ensures History(s)
  {
  }

  lemma {:induction false} CreatedBalance(n: Tally, s: Sys)
    requires AllAre(s.phases, Idle) && n == Count(s.phases)
    requires s.lock == 1 && s.available == s.max && s.filled == s.ring.size == s.done == 0
    ensures Balanced(n, s)
  {
    NobodyHolds(s.phases);
    NobodyResets(s.phases);
    NobodySends(s.phases);
    NobodyReceives(s.phases);
  }

  lemma {:induction false} NobodyHolds(phases: seq<Phase>)
    requires AllAre(phases, Idle)
    ensures Count(phases).Holders() == 0
  {
    NobodyIn(phases, SLocked);
    NobodyIn(phases, SStored);
    NobodyIn(phases, RLocked);
    NobodyIn(phases, RPopped);
    NobodyIn(phases, QLocked);
    NobodyResets(phases);
  }

  lemma {:induction false} NobodyResets(phases: seq<Phase>)
    requires AllAre(phases, Idle)
    ensures Count(phases).Resetting() == Count(phases).zTaken == 0
  {
    NobodyIn(phases, ZLocked);
    NobodyIn(phases, ZTaken);
  }

  lemma {:induction false} NobodySends(phases: seq<Phase>)
    requires AllAre(phases, Idle)
    ensures Count(phases).Reserved() == Count(phases).Unannounced() == 0
  {
    NobodyIn(phases, SReserved);
    NobodyIn(phases, SLocked);
    NobodyIn(phases, SStored);
    NobodyIn(phases, SReleased);
  }

  lemma {:induction false} NobodyReceives(phases: seq<Phase>)
    requires AllAre(phases, Idle)
    ensures Count(phases).Promised() == Count(phases).Unreturned() == 0
  {
    NobodyIn(phases, RReserved);
    NobodyIn(phases, RLocked);
    NobodyIn(phases, RPopped);
    NobodyIn(phases, RReleased);
  }

  // ---------- every step keeps the invariant ----------

  // The counting argument, step by step, without the threads themselves.

  predicate Ready(n: Tally, n1: Tally, s: Sys, a: Step) {
    && Balanced(n, s) && s.ring.size <= s.max && Enabled(s, a)
    && (From(a) != Idle ==> n.Of(From(a)) > 0)
    && n.Becomes(n1, From(a), To(a))
  }

  lemma {:induction false} NaturalKept(n: Tally, n1: Tally, s: Sys, a: Step)
    requires Ready(n, n1, s, a)
    ensures Natural(n1)
  {
  }

  lemma {:induction false} LockKept(n: Tally, n1: Tally, s: Sys, a: Step)
    requires Natural(n) && LockBalanced(n, s) && Enabled(s, a)
    requires (From(a) != Idle ==> n.Of(From(a)) > 0) && n.Becomes(n1, From(a), To(a))
    ensures LockBalanced(n1, Act(s, a))
  {
  }

  lemma {:induction false} FilledKept(n: Tally, n1: Tally, s: Sys, a: Step)
    requires Ready(n, n1, s, a)
    ensures FilledBalanced(n1, Act(s, a))
  {
  }

  lemma {:induction false} AvailableKept(n: Tally, n1: Tally, s: Sys, a: Step)
    requires Ready(n, n1, s, a)
    ensures AvailableBalanced(n1, Act(s, a))
  {
  }

  lemma {:induction false} DoneKept(n: Tally, n1: Tally, s: Sys, a: Step)
    requires Ready(n, n1, s, a)
    ensures n1.Resetting() == 0 ==> Act(s, a).done == 0
  {
  }

  lemma {:induction false} BalanceKept(n: Tally, n1: Tally, s: Sys, a: Step)
    requires Ready(n, n1, s, a)
    ensures Balanced(n1, Act(s, a))
  {
    NaturalKept(n, n1, s, a);
    LockKept(n, n1, s, a);
    FilledKept(n, n1, s, a);
    AvailableKept(n, n1, s, a);
    DoneKept(n, n1, s, a);
  }

  lemma {:induction false} Prepared(s: Sys, a: Step)
    requires Counts(s) && s.ring.size <= s.max && Enabled(s, a)
    ensures Ready(Count(s.phases), Count(Next(s, a).phases), s, a)
  {
    if From(a) != Idle { Present(s.phases, a.t); }
    CountMoved(s.phases, a.t, To(a));
  }

  lemma {:induction false} CountsKept(s: Sys, a: Step)
    requires Inv(s) && Enabled(s, a)
    ensures Counts(Next(s, a))
  {
    Prepared(s, a);
    BalanceKept(Count(s.phases), Count(Next(s, a).phases), s, a);
  }

  lemma {:induction false} BalanceBounds(n: Tally, n1: Tally, s: Sys, a: Step)
    requires Ready(n, n1, s, a)
    ensures a.SendStore? ==> s.ring.size < s.max
    ensures a.RecvTake? ==> s.ring.size > 0
    ensures a.SendNotify? ==> s.filled < s.max
    ensures a.RecvNotify? || a.ResetPost? ==> s.available < s.max
    ensures a.SendUnlock? || a.RecvUnlock? || a.QueryUnlock? || a.ResetEnd? ==> s.lock == 0
  {
  }

  /** No post is ever refused, no sender overwrites an element and no receiver finds the queue empty. */
  lemma {:induction false} NothingLost(s: Sys, a: Step)
    requires Inv(s) && Enabled(s, a)
    ensures a.SendStore? ==> s.ring.size < s.max
    ensures a.RecvTake? ==> s.ring.size > 0
    ensures a.SendNotify? ==> s.filled < s.max
    ensures a.RecvNotify? || a.ResetPost? ==> s.available < s.max
    ensures a.SendUnlock? || a.RecvUnlock? || a.QueryUnlock? || a.ResetEnd? ==> s.lock == 0
  {
    Prepared(s, a);
    BalanceBounds(Count(s.phases), Count(Next(s, a).phases), s, a);
  }

  lemma {:induction false} HistoryKeptStore(s: Sys, a: Step)
    requires History(s) && Enabled(s, a) && a.SendStore? && s.ring.size < s.max
    ensures History(Next(s, a))
  {
    StoredKeeps(s.ring, s.max, s.items[a.t]);
    assert Items(s.gone) + (Content(s.ring) + [s.items[a.t]]) == s.sent + [s.items[a.t]];
  }

  lemma {:induction false} HistoryKeptTake(s: Sys, a: Step)
    requires History(s) && Enabled(s, a) && a.RecvTake? && s.ring.size > 0
    ensures History(Next(s, a))
  {
    var x := s.ring.slots[s.ring.tail];
    TakenKeeps(s.ring, s.max);
    assert Items(s.gone + [Received(x)]) == Items(s.gone) + [x];
    assert Items(s.gone) + ([x] + Content(Taken(s.ring))) == (Items(s.gone) + [x]) + Content(Taken(s.ring));
  }

  lemma {:induction false} HistoryKeptReset(s: Sys, a: Step)
    requires History(s) && Enabled(s, a) && a.ResetEnd?
    ensures History(Next(s, a))
  {
    var c := Content(s.ring);
    assert Items(s.gone + Drops(c)) == Items(s.gone) + c;
    assert Content(Empty(s.ring.slots)) == [];
  }

  lemma {:induction false} HistoryKept(s: Sys, a: Step)
    requires History(s) && Enabled(s, a)
    requires (a.SendStore? ==> s.ring.size < s.max) && (a.RecvTake? ==> s.ring.size > 0)
    ensures History(Next(s, a))
  {
    if a.SendStore? {
      HistoryKeptStore(s, a);
    } else if a.RecvTake? {
      HistoryKeptTake(s, a);
    } else if a.ResetEnd? {
      HistoryKeptReset(s, a);
    }
  }

  lemma {:induction false} StepKeeps(s: Sys, a: Step)
    requires Inv(s) && Enabled(s, a)
    ensures Inv(Next(s, a)) && Next(s, a).max == s.max
  {
    CountsKept(s, a);
    NothingLost(s, a);
    HistoryKept(s, a);
  }

  // ---------- runs ----------

  /** The states of a run: each step is enabled where it is taken. */
  ghost predicate IsRun(run: seq<Sys>, steps: seq<Step>) {
    && |run| == |steps| + 1
    && forall i :: 0 <= i < |steps| ==> Enabled(run[i], steps[i]) && run[i + 1] == Next(run[i], steps[i])
  }

  ghost predicate Initial(s: Sys) {
    |s.ring.slots| == s.max + 1 && s == Created(s.max, s.ring.slots, |s.phases|)
  }

  lemma {:induction false} RunStep(run: seq<Sys>, steps: seq<Step>, i: nat)
    requires IsRun(run, steps) && 0 < i < |run|
    ensures Enabled(run[i - 1], steps[i - 1]) && run[i] == Next(run[i - 1], steps[i - 1])
  {
    assert Enabled(run[i - 1], steps[i - 1]) && run[i - 1 + 1] == Next(run[i - 1], steps[i - 1]);
  }

  lemma {:induction false} RunStays(run: seq<Sys>, steps: seq<Step>, i: nat)
    requires IsRun(run, steps) && Inv(run[0]) && i < |run|
    ensures Inv(run[i]) && run[i].max == run[0].max
  {
    if i > 0 {
      RunStays(run, steps, i - 1);
      RunStep(run, steps, i);
      StepKeeps(run[i - 1], steps[i - 1]);
    }
  }

  lemma {:induction false} RunKeeps(run: seq<Sys>, steps: seq<Step>, i: nat)
    requires IsRun(run, steps) && Initial(run[0]) && i < |run|
    ensures Inv(run[i]) && run[i].max == run[0].max
  {
    CreatedInv(run[0].max, run[0].ring.slots, |run[0].phases|);
    RunStays(run, steps, i);
  }

  /** In every interleaving the semaphores and the size count what they stand for, stay within their
      limits, and at most one thread holds the lock. While a reset is under way, done and zTaken say
      how far it has got. */
  lemma {:induction false} RunCounts(run: seq<Sys>, steps: seq<Step>, i: nat)
    requires IsRun(run, steps) && Initial(run[0]) && i < |run|
    ensures var s, n := run[i], Count(run[i].phases);
            && s.ring.size == s.filled + n.Unannounced() + n.Promised() + n.zTaken + s.done
            && s.available + n.Reserved() + s.ring.size + n.Unreturned() == s.max + s.done
            && (n.Resetting() == 0 ==> n.zTaken == 0 && s.done == 0)
            && s.ring.size <= s.max && s.filled <= s.max && s.available <= s.max && s.lock <= 1
            && n.Holders() <= 1 && s.lock + n.Holders() == 1
  {
    RunKeeps(run, steps, i);
  }

  /** In every interleaving what has left the queue, followed by what lies between tail and head, is
      exactly what was sent, in order. */
  lemma {:induction false} RunFifo(run: seq<Sys>, steps: seq<Step>, i: nat)
    requires IsRun(run, steps) && Initial(run[0]) && i < |run|
    ensures RingOk(run[i].ring, run[i].max)
    ensures Items(run[i].gone) + Content(run[i].ring) == run[i].sent
  {
    RunKeeps(run, steps, i);
  }

  /** Without a reset, what left the queue is what was received: a prefix of what was sent. */
  lemma {:induction false} RunReceives(run: seq<Sys>, steps: seq<Step>, i: nat)
    requires IsRun(run, steps) && Initial(run[0]) && i < |run|
    requires forall j :: 0 <= j < |steps| ==> !steps[j].ResetEnd?
    ensures forall k :: 0 <= k < |run[i].gone| ==> run[i].gone[k].Received?
    ensures Items(run[i].gone) <= run[i].sent
  {
    RunFifo(run, steps, i);
    if i > 0 {
      RunReceives(run, steps, i - 1);
      RunStep(run, steps, i);
    }
  }

  /** Whoever pops gets the oldest element that has not left the queue yet. */
  lemma {:induction false} TakesOldest(s: Sys, a: Step)
    requires Inv(s) && Enabled(s, a) && a.RecvTake?
    ensures |s.gone| < |s.sent|
    ensures Next(s, a).items[a.t] == s.sent[|s.gone|]
    ensures Next(s, a).gone == s.gone + [Received(s.sent[|s.gone|])]
  {
    NothingLost(s, a);
    TakenKeeps(s.ring, s.max);
    assert s.sent[|s.gone|] == Content(s.ring)[0];
  }

  /** What a size query reads is, at that time, the number of elements that were sent and have not left:
      so the queue is reported empty exactly when everything sent has left, and full exactly when max
      elements have not. */
  lemma {:induction false} QueryReports(run: seq<Sys>, steps: seq<Step>, i: nat)
    requires IsRun(run, steps) && Initial(run[0]) && i < |steps| && steps[i].QueryUnlock?
    ensures steps[i].t in run[i + 1].reports
    ensures var n, s := run[i + 1].reports[steps[i].t], run[i];
            && n + |s.gone| == |s.sent| && n <= s.max
            && (n == 0 <==> Items(s.gone) == s.sent)
            && (n == s.max <==> |s.sent| == |s.gone| + s.max)
  {
    RunFifo(run, steps, i);
    RunCounts(run, steps, i);
    RunStep(run, steps, i + 1);
  }

  // ---------- progress ----------

  /** Whoever holds the lock can go on. */
  lemma {:induction false} HolderAdvances(s: Sys) returns (a: Step)
    requires Inv(s) && s.lock == 0 && Count(s.phases).Resetting() == 0
    ensures Enabled(s, a) && From(a) != Idle
  {
    var p := HolderPhase(Count(s.phases));
    CountIsN(s.phases, p);
    var t := SomeoneIn(s.phases, p);
    a := match p
      case SLocked => SendStore(t)
      case SStored => SendUnlock(t)
      case RLocked => RecvTake(t)
      case RPopped => RecvUnlock(t)
      case _ => QueryUnlock(t);
  }

  lemma {:induction false} HolderPhase(n: Tally) returns (p: Phase)
    requires Natural(n) && n.Holders() == 1 && n.Resetting() == 0
    ensures p == SLocked || p == SStored || p == RLocked || p == RPopped || p == QLocked
    ensures n.Of(p) > 0
  {
    p := if n.sLocked > 0 then SLocked else if n.sStored > 0 then SStored
         else if n.rLocked > 0 then RLocked else if n.rPopped > 0 then RPopped else QLocked;
  }

  lemma {:induction false} CountIsN(phases: seq<Phase>, p: Phase)
    requires p != Idle
    ensures Count(phases).Of(p) == N(phases, p)
  {
  }

  /** The queue never deadlocks by itself: while no reset runs and some thread is in the middle of a call,
      some thread in the middle of a call can go on. */
  lemma {:induction false} SomeoneAdvances(s: Sys, t: Tid) returns (a: Step)
    requires Inv(s) && Count(s.phases).Resetting() == 0 && PhaseOf(s.phases, t) != Idle
    ensures Enabled(s, a) && From(a) != Idle
  {
    if s.lock == 0 {
      a := HolderAdvances(s);
    } else {
      Present(s.phases, t);
      a := match s.phases[t]
        case SReserved => SendLock(t)
        case SReleased => SendNotify(t)
        case RReserved => RecvLock(t)
        case _ => RecvNotify(t);
    }
  }

  // ---------- when a call begins, and that it ends ----------

  /** When a thread that has come to a step can take it, in terms of the other threads: a pop waits for an
      element that is stored, announced and not promised to another receiver, a push for a slot that nobody
      uses or has reserved, and who wants the lock for nobody to hold it. Nothing else waits. */
  predicate Possible(n: Tally, s: Sys, a: Step) {
    match a
    case SendWait(_, _) => n.Reserved() + s.ring.size + n.Unreturned() < s.max + s.done
    case RecvWait(_) => n.Unannounced() + n.Promised() + n.zTaken + s.done < s.ring.size
    case ResetTake(_) => n.Unannounced() + n.Promised() + n.zTaken + s.done < s.ring.size
    case ResetEnd(_) => s.ring.size <= s.done
    case SendLock(_) => n.Holders() == 0
    case RecvLock(_) => n.Holders() == 0
    case QueryLock(_) => n.Holders() == 0
    case ResetLock(_) => n.Holders() == 0
    case _ => true
  }

  lemma {:induction false} EnabledExactly(s: Sys, a: Step)
    requires Inv(s) && a.t < |s.phases| && s.phases[a.t] == From(a)
    ensures Enabled(s, a) <==> Possible(Count(s.phases), s, a)
  {
  }

  /** When an idle thread may begin a call while no reset is under way. */
  lemma {:induction false} MayBegin(s: Sys, t: Tid, x: Item)
    requires Inv(s) && t < |s.phases| && s.phases[t] == Idle && Count(s.phases).Resetting() == 0
    ensures var n := Count(s.phases);
            && (Enabled(s, RecvWait(t)) <==> s.ring.size > n.Unannounced() + n.Promised())
            && (Enabled(s, SendWait(t, x)) <==> n.Reserved() + s.ring.size + n.Unreturned() < s.max)
            && (Enabled(s, QueryLock(t)) <==> n.Holders() == 0)
            && (Enabled(s, ResetLock(t)) <==> n.Holders() == 0)
  {
    EnabledExactly(s, RecvWait(t));
    EnabledExactly(s, SendWait(t, x));
    EnabledExactly(s, QueryLock(t));
    EnabledExactly(s, ResetLock(t));
  }

  /** The queue at rest: no thread is in a call. */
  ghost predicate AtRest(s: Sys) {
    Inv(s) && AllAre(s.phases, Idle)
  }

  /** At rest the semaphores count the elements and the free slots. */
  lemma {:induction false} RestCounts(s: Sys)
    requires AtRest(s)
    ensures s.lock == 1 && s.filled == s.ring.size && s.available + s.ring.size == s.max && s.done == 0
  {
    RestBalance(Count(s.phases), s);
  }

  lemma {:induction false} RestBalance(n: Tally, s: Sys)
    requires AllAre(s.phases, Idle) && n == Count(s.phases) && Balanced(n, s)
    ensures s.lock == 1 && s.filled == s.ring.size && s.available + s.ring.size == s.max && s.done == 0
  {
    NobodyHolds(s.phases);
    NobodyResets(s.phases);
    NobodySends(s.phases);
    NobodyReceives(s.phases);
  }

  predicate Leads(s: Sys, a: Step, s1: Sys) {
    Enabled(s, a) && s1 == Next(s, a)
  }

  lemma {:induction false} FiveSteps(s: seq<Sys>, a: seq<Step>)
    requires |s| == 6 && |a| == 5 && Inv(s[0])
    requires forall i :: 0 <= i < 5 ==> Leads(s[i], a[i], s[i + 1])
    ensures IsRun(s, a) && Inv(s[5])
  {
    assert IsRun(s, a) by {
      forall i | 0 <= i < |a|
        ensures Enabled(s[i], a[i]) && s[i + 1] == Next(s[i], a[i])
      {
        assert Leads(s[i], a[i], s[i + 1]);
      }
    }
    RunStays(s, a, 5);
  }

  /** What the five steps of a pop, taken one after the other, do. */
  lemma {:induction false} PopSteps(s: Sys, t: Tid) returns (s1: Sys, s2: Sys, s3: Sys, s4: Sys, s5: Sys)
    requires InBounds(s.ring) && s.ring.size > 0 && t < |s.phases| && s.phases[t] == Idle
    requires s.lock == 1 && s.filled > 0
    ensures Leads(s, RecvWait(t), s1) && Leads(s1, RecvLock(t), s2) && Leads(s2, RecvTake(t), s3)
    ensures Leads(s3, RecvUnlock(t), s4) && Leads(s4, RecvNotify(t), s5)
    ensures s5.phases == s.phases && s5.ring == Taken(s.ring) && s5.sent == s.sent
    ensures s5.items == s.items[t := s.ring.slots[s.ring.tail]]
    ensures s5.gone == s.gone + [Received(s.ring.slots[s.ring.tail])]
  {
    s1 := Next(s, RecvWait(t));
    s2 := Next(s1, RecvLock(t));
    s3 := Next(s2, RecvTake(t));
    s4 := Next(s3, RecvUnlock(t));
    s5 := Next(s4, RecvNotify(t));
  }

  /** A pop from a queue at rest that is not empty runs to its end and delivers the oldest element. */
  lemma {:induction false} PopCompletes(s: Sys, t: Tid) returns (run: seq<Sys>, steps: seq<Step>)
    requires AtRest(s) && t < |s.phases| && Content(s.ring) != []
    ensures steps == [RecvWait(t), RecvLock(t), RecvTake(t), RecvUnlock(t), RecvNotify(t)]
    ensures IsRun(run, steps) && run[0] == s && AtRest(run[5])
    ensures t in run[5].items && [run[5].items[t]] + Content(run[5].ring) == Content(s.ring)
    ensures run[5].gone == s.gone + [Received(run[5].items[t])] && run[5].sent == s.sent
  {
    RestCounts(s);
    TakenKeeps(s.ring, s.max);
    steps := [RecvWait(t), RecvLock(t), RecvTake(t), RecvUnlock(t), RecvNotify(t)];
    var s1, s2, s3, s4, s5 := PopSteps(s, t);
    run := [s, s1, s2, s3, s4, s5];
    FiveSteps(run, steps);
  }

  /** What the five steps of a push do. */
  lemma {:induction false} PushSteps(s: Sys, t: Tid, x: Item) returns (s1: Sys, s2: Sys, s3: Sys, s4: Sys, s5: Sys)
    requires InBounds(s.ring) && t < |s.phases| && s.phases[t] == Idle
    requires s.lock == 1 && s.available > 0
    ensures Leads(s, SendWait(t, x), s1) && Leads(s1, SendLock(t), s2) && Leads(s2, SendStore(t), s3)
    ensures Leads(s3, SendUnlock(t), s4) && Leads(s4, SendNotify(t), s5)
    ensures s5.phases == s.phases && s5.ring == Stored(s.ring, x) && s5.sent == s.sent + [x] && s5.gone == s.gone
  {
    s1 := Next(s, SendWait(t, x));
    s2 := Next(s1, SendLock(t));
    s3 := Next(s2, SendStore(t));
    s4 := Next(s3, SendUnlock(t));
    s5 := Next(s4, SendNotify(t));
  }

  /** A push into a queue at rest that is not full runs to its end and appends the element. */
  lemma {:induction false} PushCompletes(s: Sys, t: Tid, x: Item) returns (run: seq<Sys>, steps: seq<Step>)
    requires AtRest(s) && t < |s.phases| && |Content(s.ring)| < s.max
    ensures steps == [SendWait(t, x), SendLock(t), SendStore(t), SendUnlock(t), SendNotify(t)]
    ensures IsRun(run, steps) && run[0] == s && AtRest(run[5])
    ensures Content(run[5].ring) == Content(s.ring) + [x] && run[5].sent == s.sent + [x] && run[5].gone == s.gone
  {
    RestCounts(s);
    StoredKeeps(s.ring, s.max, x);
    steps := [SendWait(t, x), SendLock(t), SendStore(t), SendUnlock(t), SendNotify(t)];
    var s1, s2, s3, s4, s5 := PushSteps(s, t, x);
    run := [s, s1, s2, s3, s4, s5];
    FiveSteps(run, steps);
  }
}
