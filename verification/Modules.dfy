/** Initialisation of the library's modules, each with a reference count, undone when one of them fails. */
module Modules {

  type Features = bv32

  const FEATURE_SOCKETS: Features := 1
  const FEATURE_NETINTS: Features := 2
  const FEATURE_TIMERS: Features := 4
  const FEATURE_LOGGING: Features := 8

  /** The feature masks of log, timer, socket and netint, in the order in which they are initialised. */
  const MASKS: seq<Features> := [FEATURE_LOGGING, FEATURE_TIMERS, FEATURE_SOCKETS, FEATURE_NETINTS]

  const SIZE: nat := 4

  datatype Error = Ok | Invalid | Other(code: int)

  /** A call of a module's init function that succeeded or failed, or of its deinit function. */
  datatype Event = Started(i: nat) | Failed(i: nat) | Stopped(i: nat)

  /** The reference counts, and every call made to a module so far. */
  datatype State = State(counts: seq<nat>, trace: seq<Event>)

  predicate Selects(features: Features, mask: Features) {
    features & mask != 0
  }

  /** Which modules a feature mask selects. */
  function Wanted(features: Features): (want: seq<bool>)
    ensures |want| == SIZE
    ensures forall i :: 0 <= i < SIZE ==> (want[i] <==> Selects(features, MASKS[i]))
  {
    seq(SIZE, i requires 0 <= i < SIZE => Selects(features, MASKS[i]))
  }

  // ---------- specification, for any number of modules ----------

  /** The first module from i on that has to be initialised and fails; the number of modules if there
      is none. */
  function FirstFailure(counts: seq<nat>, want: seq<bool>, results: seq<Error>, i: nat): (f: nat)
    requires |counts| == |want| == |results| && i <= |counts|
    ensures i <= f <= |counts|
    ensures f < |counts| ==> want[f] && counts[f] == 0 && results[f] != Ok
    ensures forall j :: i <= j < f && want[j] && counts[j] == 0 ==> results[j] == Ok
    decreases |counts| - i
  {
    if i == |counts| then i
    else if want[i] && counts[i] == 0 && results[i] != Ok then i
    else FirstFailure(counts, want, results, i + 1)
  }

  /** The modules below n that an init starts, in order. */
  function StartUp(counts: seq<nat>, want: seq<bool>, n: nat): seq<Event>
    requires n <= |counts| == |want|
  {
    if n == 0 then []
    else StartUp(counts, want, n - 1) + if want[n - 1] && counts[n - 1] == 0 then [Started(n - 1)] else []
  }

  /** The modules from n up to f in reverse order, as far as the init started them. */
  function RollBack(counts: seq<nat>, want: seq<bool>, f: nat, n: nat): seq<Event>
    requires n <= f <= |counts| == |want|
    decreases f - n
  {
    if n == f then []
    else RollBack(counts, want, f, n + 1) + if want[n] && counts[n] == 0 then [Stopped(n)] else []
  }

  /** The modules from n on whose last reference goes away, in reverse order. */
  function ShutDown(counts: seq<nat>, want: seq<bool>, n: nat): seq<Event>
    requires n <= |counts| == |want|
    decreases |counts| - n
  {
    if n == |counts| then []
    else ShutDown(counts, want, n + 1) + if want[n] && counts[n] == 1 then [Stopped(n)] else []
  }

  /** The selected modules below n counted once more. */
  function Counted(counts: seq<nat>, want: seq<bool>, n: nat): (s: seq<nat>)
    requires n <= |counts| == |want|
  {
    seq(|counts|, i requires 0 <= i < |counts| => if i < n && want[i] then counts[i] + 1 else counts[i])
  }

  /** The selected modules from n on counted once less, unless at zero. */
  function Uncounted(counts: seq<nat>, want: seq<bool>, n: nat): seq<nat>
    requires n <= |counts| == |want|
  {
    seq(|counts|, i requires 0 <= i < |counts| =>
      if i >= n && want[i] && counts[i] > 0 then counts[i] - 1 else counts[i])
  }

  /** A log handler is set and logging, the first module, is neither enabled nor asked for. */
  predicate LacksLogging(counts: seq<nat>, want: seq<bool>, logParams: bool)
    requires |counts| == |want| > 0
  {
    logParams && counts[0] == 0 && !want[0]
  }

  /** etcpal_init: all selected modules are counted, or nothing but the trace has changed. */
  function Init(s: State, want: seq<bool>, logParams: bool, results: seq<Error>): (State, Error)
    requires |s.counts| == |want| == |results| > 0
  {
    if LacksLogging(s.counts, want, logParams) then (s, Invalid) else
    var f := FirstFailure(s.counts, want, results, 0);
    var trace := s.trace + StartUp(s.counts, want, f);
    if f == |s.counts| then (State(Counted(s.counts, want, f), trace), Ok)
    else (State(s.counts, trace + [Failed(f)] + RollBack(s.counts, want, f, 0)), results[f])
  }

  function Deinit(s: State, want: seq<bool>): State
    requires |s.counts| == |want|
  {
    State(Uncounted(s.counts, want, 0), s.trace + ShutDown(s.counts, want, 0))
  }

  // ---------- what init and deinit mean, without the functions above ----------

  /** The features in bits: logging is 8, timers 4, sockets 1 and network interfaces 2. */
  lemma {:induction false} WantedBits(features: Features)
    ensures Wanted(features)[0] <==> features & 8 != 0
    ensures Wanted(features)[1] <==> features & 4 != 0
    ensures Wanted(features)[2] <==> features & 1 != 0
    ensures Wanted(features)[3] <==> features & 2 != 0
  {
    assert MASKS[0] == 8 && MASKS[1] == 4 && MASKS[2] == 1 && MASKS[3] == 2;
  }

  /** Module i has to be initialised. */
  predicate Due(counts: seq<nat>, want: seq<bool>, i: nat)
    requires i < |counts| == |want|
  {
    want[i] && counts[i] == 0
  }

  /** The answer of an init: logging is missing, or all modules due succeed, or the first one that fails
      says it. */
  ghost predicate Answers(counts: seq<nat>, want: seq<bool>, logParams: bool, results: seq<Error>, res: Error)
    requires |counts| == |want| == |results| > 0
  {
    if logParams && counts[0] == 0 && !want[0] then res == Invalid
    else
      && (res == Ok <==> forall i: nat :: i < |want| && Due(counts, want, i) ==> results[i] == Ok)
      && (forall i: nat :: i < |want| && Due(counts, want, i) && results[i] != Ok
                           && (forall j: nat :: j < i && Due(counts, want, j) ==> results[j] == Ok)
                           ==> res == results[i])
  }

  /** These are the init calls of the modules below n that are due, in ascending order. */
  ghost predicate AreStarts(t: seq<Event>, counts: seq<nat>, want: seq<bool>, n: nat)
    requires n <= |counts| == |want|
  {
    && (forall k :: 0 <= k < |t| ==> t[k].Started?)
    && (forall i: nat :: Started(i) in t <==> i < n && want[i] && counts[i] == 0)
    && (forall j, k :: 0 <= j < k < |t| ==> t[j].i < t[k].i)
  }

  /** These are the deinit calls of the selected modules from n up to f that have this count, in descending
      order. */
  ghost predicate AreStops(t: seq<Event>, counts: seq<nat>, want: seq<bool>, n: nat, f: nat, count: nat)
    requires f <= |counts| == |want|
  {
    && (forall k :: 0 <= k < |t| ==> t[k].Stopped?)
    && (forall i: nat :: Stopped(i) in t <==> n <= i < f && want[i] && counts[i] == count)
    && (forall j, k :: 0 <= j < k < |t| ==> t[j].i > t[k].i)
  }

  lemma {:induction false} StartUpInOrder(counts: seq<nat>, want: seq<bool>, n: nat)
    requires n <= |counts| == |want|
    ensures AreStarts(StartUp(counts, want, n), counts, want, n)
  {
    if n > 0 {
      StartUpInOrder(counts, want, n - 1);
      StartsMore(StartUp(counts, want, n - 1), counts, want, n - 1);
    }
  }

  lemma {:induction false} StartsMore(t: seq<Event>, counts: seq<nat>, want: seq<bool>, n: nat)
    requires n < |counts| == |want| && AreStarts(t, counts, want, n)
    ensures AreStarts(t + if want[n] && counts[n] == 0 then [Started(n)] else [], counts, want, n + 1)
  {
    forall k | 0 <= k < |t|
      ensures t[k].i < n
    {
      assert t[k] == Started(t[k].i);
    }
  }

  lemma {:induction false} RollBackInOrder(counts: seq<nat>, want: seq<bool>, f: nat, n: nat)
    requires n <= f <= |counts| == |want|
    ensures AreStops(RollBack(counts, want, f, n), counts, want, n, f, 0)
    decreases f - n
  {
    if n < f {
      RollBackInOrder(counts, want, f, n + 1);
      StopsMore(RollBack(counts, want, f, n + 1), counts, want, n, f, 0);
    }
  }

  lemma {:induction false} ShutDownInOrder(counts: seq<nat>, want: seq<bool>, n: nat)
    requires n <= |counts| == |want|
    ensures AreStops(ShutDown(counts, want, n), counts, want, n, |want|, 1)
    decreases |want| - n
  {
    if n < |want| {
      ShutDownInOrder(counts, want, n + 1);
      StopsMore(ShutDown(counts, want, n + 1), counts, want, n, |want|, 1);
    }
  }

  lemma {:induction false} StopsMore(t: seq<Event>, counts: seq<nat>, want: seq<bool>, n: nat, f: nat, count: nat)
    requires n < f <= |counts| == |want| && AreStops(t, counts, want, n + 1, f, count)
    ensures AreStops(t + if want[n] && counts[n] == count then [Stopped(n)] else [], counts, want, n, f, count)
  {
    forall k | 0 <= k < |t|
      ensures t[k].i > n
    {
      assert t[k] == Stopped(t[k].i);
    }
  }

  /** The calls that an init makes: none, or those of the modules due, up to the first that fails and then back
      in reverse order. */
  ghost predicate CallsOfInit(t: seq<Event>, counts: seq<nat>, want: seq<bool>, logParams: bool, results: seq<Error>)
    requires |counts| == |want| == |results| > 0
  {
    if logParams && counts[0] == 0 && !want[0] then t == []
    else if forall i: nat :: i < |want| && Due(counts, want, i) ==> results[i] == Ok
      then AreStarts(t, counts, want, |want|)
    else exists up, down, f: nat ::
      && f < |want| && Due(counts, want, f) && results[f] != Ok
      && (forall j: nat :: j < f && Due(counts, want, j) ==> results[j] == Ok)
      && t == up + [Failed(f)] + down && AreStarts(up, counts, want, f) && AreStops(down, counts, want, 0, f, 0)
  }

  lemma {:induction false} InitMeans(s: State, want: seq<bool>, logParams: bool, results: seq<Error>)
    returns (t: seq<Event>)
    requires |s.counts| == |want| == |results| > 0
    ensures Answers(s.counts, want, logParams, results, Init(s, want, logParams, results).1)
    ensures Init(s, want, logParams, results).0.trace == s.trace + t
    ensures CallsOfInit(t, s.counts, want, logParams, results)
  {
    var f := FirstFailure(s.counts, want, results, 0);
    var up := StartUp(s.counts, want, f);
    if LacksLogging(s.counts, want, logParams) {
      t := [];
    } else if f == |want| {
      t := up;
      StartUpInOrder(s.counts, want, f);
    } else {
      var down := RollBack(s.counts, want, f, 0);
      StartUpInOrder(s.counts, want, f);
      RollBackInOrder(s.counts, want, f, 0);
      t := up + [Failed(f)] + down;
      assert Due(s.counts, want, f);
    }
  }

  // ---------- running modules ----------

  /** According to the calls made, module i is initialised. */
  predicate Running(trace: seq<Event>, i: nat) {
    if trace == [] then false
    else if trace[|trace| - 1] == Started(i) then true
    else if trace[|trace| - 1] == Stopped(i) then false
    else Running(trace[..|trace| - 1], i)
  }

  /** No init of a module that runs, and no deinit of one that does not: the two alternate. */
  predicate Alternates(trace: seq<Event>) {
    trace != [] ==>
      var e, before := trace[|trace| - 1], trace[..|trace| - 1];
      Alternates(before) && (Running(before, e.i) <==> e.Stopped?)
  }

  ghost predicate Sound(s: State) {
    && Alternates(s.trace)
    && forall i: nat :: i < |s.counts| ==> (Running(s.trace, i) <==> s.counts[i] > 0)
  }

  lemma {:induction false} Push(trace: seq<Event>, e: Event)
    requires Alternates(trace) && (Running(trace, e.i) <==> e.Stopped?)
    ensures Alternates(trace + [e])
    ensures forall j: nat :: Running(trace + [e], j) <==> if j == e.i then e.Started? else Running(trace, j)
  {
    assert (trace + [e])[..|trace|] == trace;
  }

  lemma {:induction false} Append(trace: seq<Event>, xs: seq<Event>, e: Event)
    ensures trace + (xs + [e]) == trace + xs + [e]
    ensures trace + (xs + []) == trace + xs
    ensures trace + [] == trace
  {
  }

  /** Starting up initialises exactly the selected modules that did not run. */
  lemma {:induction false} StartUpRuns(s: State, want: seq<bool>, n: nat)
    requires Sound(s) && n <= |s.counts| == |want|
    ensures Alternates(s.trace + StartUp(s.counts, want, n))
    ensures forall i: nat :: i < |want| ==>
      (Running(s.trace + StartUp(s.counts, want, n), i) <==> s.counts[i] > 0 || (i < n && want[i]))
  {
    if n == 0 {
      assert s.trace + [] == s.trace;
    } else {
      StartUpRuns(s, want, n - 1);
      Append(s.trace, StartUp(s.counts, want, n - 1), Started(n - 1));
      if want[n - 1] && s.counts[n - 1] == 0 {
        Push(s.trace + StartUp(s.counts, want, n - 1), Started(n - 1));
      }
    }
  }

  /** The trace of an init that failed at module f, rolled back down to module n. */
  ghost function FailedTrace(s: State, want: seq<bool>, f: nat, n: nat): seq<Event>
    requires n <= f < |s.counts| == |want|
  {
    s.trace + StartUp(s.counts, want, f) + [Failed(f)] + RollBack(s.counts, want, f, n)
  }

  /** Rolling back from module f leaves running what ran before. */
  lemma {:induction false} RollBackRuns(s: State, want: seq<bool>, f: nat, n: nat)
    requires Sound(s) && n <= f < |s.counts| == |want| && want[f] && s.counts[f] == 0
    ensures Alternates(FailedTrace(s, want, f, n))
    ensures forall i: nat :: i < |want| ==>
      (Running(FailedTrace(s, want, f, n), i) <==> s.counts[i] > 0 || (i < n && want[i]))
    decreases f - n
  {
    var up := s.trace + StartUp(s.counts, want, f);
    if n == f {
      StartUpRuns(s, want, f);
      Push(up, Failed(f));
      assert up + [Failed(f)] + [] == up + [Failed(f)];
    } else {
      RollBackRuns(s, want, f, n + 1);
      Append(up + [Failed(f)], RollBack(s.counts, want, f, n + 1), Stopped(n));
      if want[n] && s.counts[n] == 0 { Push(FailedTrace(s, want, f, n + 1), Stopped(n)); }
    }
  }

  lemma {:induction false} ShutDownRuns(s: State, want: seq<bool>, n: nat)
    requires Sound(s) && n <= |s.counts| == |want|
    ensures Alternates(s.trace + ShutDown(s.counts, want, n))
    ensures forall i: nat :: i < |want| ==>
      (Running(s.trace + ShutDown(s.counts, want, n), i) <==> s.counts[i] > (if i >= n && want[i] then 1 else 0))
    decreases |want| - n
  {
    if n == |want| {
      assert s.trace + [] == s.trace;
    } else {
      ShutDownRuns(s, want, n + 1);
      Append(s.trace, ShutDown(s.counts, want, n + 1), Stopped(n));
      if want[n] && s.counts[n] == 1 { Push(s.trace + ShutDown(s.counts, want, n + 1), Stopped(n)); }
    }
  }

  /** However the modules' init functions behave, init counts all selected modules or none, and a module
      runs exactly when its count is positive. */
  lemma {:induction false} InitKeeps(s: State, want: seq<bool>, logParams: bool, results: seq<Error>)
    requires Sound(s) && |s.counts| == |want| == |results| > 0
    ensures var (s1, res) := Init(s, want, logParams, results);
            && Sound(s1) && |s1.counts| == |s.counts|
            && (res != Ok ==> s1.counts == s.counts)
            && (res == Ok ==> forall i :: 0 <= i < |want| ==> s1.counts[i] == s.counts[i] + if want[i] then 1 else 0)
  {
    if !LacksLogging(s.counts, want, logParams) {
      var f := FirstFailure(s.counts, want, results, 0);
      if f == |want| {
        StartUpRuns(s, want, f);
      } else {
        RollBackRuns(s, want, f, 0);
      }
    }
  }

  lemma {:induction false} DeinitKeeps(s: State, want: seq<bool>)
    requires Sound(s) && |s.counts| == |want|
    ensures Sound(Deinit(s, want))
  {
    ShutDownRuns(s, want, 0);
  }

  /** A successful init followed by deinit with the same features restores every count, and what ran
      before runs again. */
  lemma {:induction false} DeinitUndoesInit(s: State, want: seq<bool>, logParams: bool, results: seq<Error>)
    requires Sound(s) && |s.counts| == |want| == |results| > 0
    requires Init(s, want, logParams, results).1 == Ok
    ensures var s1 := Deinit(Init(s, want, logParams, results).0, want);
            s1.counts == s.counts && forall i: nat :: i < |want| ==> (Running(s1.trace, i) <==> Running(s.trace, i))
  {
    var s0 := Init(s, want, logParams, results).0;
    assert Uncounted(Counted(s.counts, want, |want|), want, 0) == s.counts;
    InitKeeps(s, want, logParams, results);
    assert Sound(s0);
    DeinitKeeps(s0, want);
    assert Sound(Deinit(s0, want));
  }

  // ---------- runs ----------

  datatype Call = DoInit(want: seq<bool>, logParams: bool, results: seq<Error>) | DoDeinit(want: seq<bool>)

  predicate Suits(calls: seq<Call>, n: nat) {
    forall k :: 0 <= k < |calls| ==> |calls[k].want| == n && (calls[k].DoInit? ==> |calls[k].results| == n)
  }

  function Run(n: nat, calls: seq<Call>): (s: State)
    requires n > 0 && Suits(calls, n)
    ensures |s.counts| == n
  {
    if calls == [] then State(seq(n, _ => 0), []) else
    var s := Run(n, calls[..|calls| - 1]);
    match calls[|calls| - 1]
    case DoInit(want, logParams, results) => Init(s, want, logParams, results).0
    case DoDeinit(want) => Deinit(s, want)
  }

  /** Over every sequence of calls: a module runs exactly when its count is positive, and its init and
      deinit alternate. */
  lemma {:induction false} RunKeeps(n: nat, calls: seq<Call>)
    requires n > 0 && Suits(calls, n)
    ensures Sound(Run(n, calls))
  {
    if calls != [] {
      RunKeeps(n, calls[..|calls| - 1]);
      var s := Run(n, calls[..|calls| - 1]);
      match calls[|calls| - 1]
      case DoInit(want, logParams, results) => InitKeeps(s, want, logParams, results);
      case DoDeinit(want) => DeinitKeeps(s, want);
    }
  }

  // ---------- the code ----------

  lemma {:induction false} CountOne(counts: seq<nat>, want: seq<bool>, i: nat)
    requires i < |counts| == |want|
    ensures Counted(counts, want, 0) == counts
    ensures Counted(counts, want, i)[i] == counts[i]
    ensures Counted(counts, want, i + 1) ==
      if want[i] then Counted(counts, want, i)[i := counts[i] + 1] else Counted(counts, want, i)
    ensures want[i] ==> Counted(counts, want, i + 1)[i := counts[i]] == Counted(counts, want, i)
  {
  }

  /** The flags of the selected modules below n. */
  function Marked(want: seq<bool>, n: nat): (s: seq<bool>)
    ensures |s| == |want| && forall j :: 0 <= j < |s| ==> (s[j] <==> j < n && want[j])
  {
    seq(|want|, j requires 0 <= j < |want| => j < n && want[j])
  }

  lemma {:induction false} MarkOne(want: seq<bool>, i: nat)
    requires i < |want|
    ensures Marked(want, i + 1) == if want[i] then Marked(want, i)[i := true] else Marked(want, i)
  {
  }

  /** Counts, trace and flags when the modules below i have been started. */
  ghost predicate Begun(now: seq<nat>, trace: seq<Event>, marks: seq<bool>,
                        counts: seq<nat>, want: seq<bool>, before: seq<Event>, i: nat)
    requires i <= |counts| == |want|
  {
    now == Counted(counts, want, i) && trace == before + StartUp(counts, want, i) && marks == Marked(want, i)
  }

  lemma {:induction false} UncountOne(counts: seq<nat>, want: seq<bool>, i: nat)
    requires i < |counts| == |want|
    ensures Uncounted(counts, want, |counts|) == counts
    ensures Uncounted(counts, want, i) ==
      if want[i] && counts[i] > 0 then Uncounted(counts, want, i + 1)[i := counts[i] - 1]
      else Uncounted(counts, want, i + 1)
  {
  }

  class EtcPal {
    const initCount: array<nat>
    ghost var trace: seq<Event>
    var logParams: bool

    ghost function Value(): State
      reads this, initCount
    {
      State(initCount[..], trace)
    }

    constructor ()
      ensures Value() == State([0, 0, 0, 0], []) && !logParams && fresh(initCount)
    {
      initCount := new nat[SIZE](_ => 0);
      trace, logParams := [], false;
    }

    /** results[i] is what the init function of module i returns if it is called. */
    method Initialise(features: Features, results: seq<Error>) returns (res: Error)
      requires initCount.Length == |results| == SIZE
      modifies this`trace, initCount
      ensures (Value(), res) == Init(old(Value()), Wanted(features), logParams, results)
      ensures Answers(old(initCount[..]), Wanted(features), logParams, results, res)
      ensures res != Ok ==> initCount[..] == old(initCount[..])
      ensures res == Ok ==>
        forall i :: 0 <= i < SIZE ==> initCount[i] == old(initCount[i]) + if Wanted(features)[i] then 1 else 0
      ensures old(trace) <= trace
      ensures CallsOfInit(trace[|old(trace)|..], old(initCount[..]), Wanted(features), logParams, results)
    {
      ghost var want := Wanted(features);
      ghost var calls := InitMeans(Value(), want, logParams, results);
      assert (trace + calls)[|trace|..] == calls;
      if logParams {
        var loggingEnabled := IsLoggingEnabled();
        if !loggingEnabled && !Selects(features, FEATURE_LOGGING) {
          assert !want[0];
          return Invalid;
        }
        assert want[0] <==> Selects(features, FEATURE_LOGGING);
      }
      var initialised;
      ghost var failed;
      res, initialised, failed := StartModules(features, results);
      if res != Ok { UndoModules(want, initialised, failed, old(initCount[..])); }
    }

    method IsLoggingEnabled() returns (enabled: bool)
      requires initCount.Length == SIZE
      ensures enabled <==> initCount[0] > 0
    {
      enabled := false;
      for i := 0 to SIZE
        invariant !enabled && (i > 0 ==> initCount[0] == 0)
      {
        if Selects(MASKS[i], FEATURE_LOGGING) && initCount[i] > 0 {
          enabled := true;
          break;
        }
      }
    }

    /** One more reference to module i; the first one initialises it, with this result. */
    method StartModule(i: nat, result: Error) returns (res: Error)
      requires i < initCount.Length
      modifies this`trace, initCount
      ensures res == if old(initCount[i]) == 0 then result else Ok
      ensures initCount[..] == if res == Ok then old(initCount[..])[i := old(initCount[i]) + 1] else old(initCount[..])
      ensures trace == old(trace) +
        if old(initCount[i]) > 0 then [] else if res == Ok then [Started(i)] else [Failed(i)]
    {
      if initCount[i] == 0 {
        res := result;
        trace := trace + [if res == Ok then Started(i) else Failed(i)];
      } else {
        res := Ok;
      }
      if res == Ok { initCount[i] := initCount[i] + 1; }
    }

    /** One round of the loop over the modules. */
    method StartNext(i: nat, selected: bool, result: Error, initialised: array<bool>,
                     ghost counts: seq<nat>, ghost want: seq<bool>, ghost before: seq<Event>)
      returns (res: Error)
      requires i < initCount.Length == initialised.Length == |counts| == |want| && selected == want[i]
      requires Begun(initCount[..], trace, initialised[..], counts, want, before, i)
      modifies this`trace, initCount, initialised
      ensures res == if want[i] && counts[i] == 0 then result else Ok
      ensures res == Ok ==> Begun(initCount[..], trace, initialised[..], counts, want, before, i + 1)
      ensures res != Ok ==> initCount[..] == Counted(counts, want, i) && initialised[..] == Marked(want, i)
      ensures res != Ok ==> trace == before + StartUp(counts, want, i) + [Failed(i)]
    {
      CountOne(counts, want, i);
      MarkOne(want, i);
      Append(before, StartUp(counts, want, i), Started(i));
      res := Ok;
      if selected {
        assert initCount[i] == initCount[..][i];
        res := StartModule(i, result);
        if res == Ok { initialised[i] := true; }
      }
    }

    /** Initialises the selected modules in turn, up to the first failure. */
    method StartModules(features: Features, results: seq<Error>)
      returns (res: Error, initialised: array<bool>, ghost failed: nat)
      requires initCount.Length == |results| == SIZE
      modifies this`trace, initCount
      ensures fresh(initialised) && initialised.Length == SIZE
      ensures failed == FirstFailure(old(initCount[..]), Wanted(features), results, 0)
      ensures res == if failed == SIZE then Ok else results[failed]
      ensures res == Ok ==> trace == old(trace) + StartUp(old(initCount[..]), Wanted(features), failed)
      ensures res != Ok ==>
        trace == old(trace) + StartUp(old(initCount[..]), Wanted(features), failed) + [Failed(failed)]
      ensures initCount[..] == Counted(old(initCount[..]), Wanted(features), failed)
      ensures initialised[..] == Marked(Wanted(features), failed)
    {
      initialised := new bool[SIZE](_ => false);
      res := Ok;
      ghost var counts, want := initCount[..], Wanted(features);
      CountOne(counts, want, 0);
      Append(trace, [], Started(0));
      for i := 0 to SIZE
        invariant res == Ok
        invariant FirstFailure(counts, want, results, 0) == FirstFailure(counts, want, results, i)
        invariant Begun(initCount[..], trace, initialised[..], counts, want, old(trace), i)
      {
        res := StartNext(i, Selects(features, MASKS[i]), results[i], initialised, counts, want, old(trace));
        if res != Ok {
          failed := i;
          return;
        }
      }
      failed := SIZE;
    }

    /** Takes back what StartModules did, in reverse order. */
    method UndoModules(ghost want: seq<bool>, initialised: array<bool>, ghost failed: nat, ghost counts: seq<nat>)
      requires initCount.Length == initialised.Length == |counts| == |want| == SIZE && failed <= SIZE
      requires initCount[..] == Counted(counts, want, failed)
      requires initialised[..] == Marked(want, failed)
      modifies this`trace, initCount
      ensures initCount[..] == counts
      ensures trace == old(trace) + RollBack(counts, want, failed, 0)
    {
      Append(trace, [], Stopped(0));
      for i := SIZE downto 0
        invariant initCount[..] == Counted(counts, want, if i < failed then i else failed)
        invariant trace == old(trace) + RollBack(counts, want, failed, if i < failed then i else failed)
      {
        assert initialised[i] == initialised[..][i];
        if initialised[i] {
          CountOne(counts, want, i);
          Append(old(trace), RollBack(counts, want, failed, i + 1), Stopped(i));
          initCount[i] := initCount[i] - 1;
          if initCount[i] == 0 { trace := trace + [Stopped(i)]; }
        } else if i < failed {
          CountOne(counts, want, i);
          Append(old(trace), RollBack(counts, want, failed, i + 1), Stopped(i));
        }
      }
      CountOne(counts, want, 0);
    }

    method Deinitialise(features: Features)
      requires initCount.Length == SIZE
      modifies this`trace, initCount
      ensures Value() == Deinit(old(Value()), Wanted(features))
      ensures forall i :: 0 <= i < SIZE ==>
        initCount[i] == old(initCount[i]) - if Wanted(features)[i] && old(initCount[i]) > 0 then 1 else 0
      ensures old(trace) <= trace
      ensures AreStops(trace[|old(trace)|..], old(initCount[..]), Wanted(features), 0, SIZE, 1)
    {
      ghost var counts, want := initCount[..], Wanted(features);
      ShutDownInOrder(counts, want, 0);
      UncountOne(counts, want, 0);
      Append(trace, [], Stopped(0));
      for i := SIZE downto 0
        invariant initCount[..] == Uncounted(counts, want, i)
        invariant trace == old(trace) + ShutDown(counts, want, i)
      {
        UncountOne(counts, want, i);
        Append(old(trace), ShutDown(counts, want, i + 1), Stopped(i));
        assert initCount[i] == Uncounted(counts, want, i + 1)[i] == counts[i];
        if Selects(features, MASKS[i]) && initCount[i] > 0 {
          initCount[i] := initCount[i] - 1;
          if initCount[i] == 0 { trace := trace + [Stopped(i)]; }
        }
      }
    }
  }
}
