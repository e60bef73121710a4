/** The handle manager: it hands out integers in increasing order, and after the first wrap-around the
    first one in cyclic order that is not in use. */
module HandleManager {

  const INT_MAX: int := 0x7fff_ffff

  /** The fields that change: the last handle given, -1 before the first, and whether a wrap-around has
      happened. */
  datatype Manager = Manager(last: int, checks: bool)

  const INIT := Manager(-1, false)

  function Limit(maxValue: int): nat {
    if maxValue >= 0 then maxValue else INT_MAX
  }

  // ---------- the plain search ----------

  /** The handle i places after `last` in the cycle 0, 1, .., max, 0, .. */
  function Cyclic(last: int, i: nat, max: nat): int {
    if last + i <= max then last + i else last + i - (max + 1)
  }

  /** The first handle not in use among the i-th to the last one in the cycle; -1 if there is none. */
  function FirstFree(last: int, max: nat, live: set<int>, i: nat): (h: int)
    requires -1 <= last <= max && i > 0
    ensures h == -1 || (0 <= h <= max && h !in live)
    decreases max + 1 - i
  {
    if i > max + 1 then -1
    else if Cyclic(last, i, max) !in live then Cyclic(last, i, max)
    else FirstFree(last, max, live, i + 1)
  }

  ghost predicate AllUsed(max: nat, live: set<int>) {
    forall h :: 0 <= h <= max ==> h in live
  }

  /** The search gives up exactly when every handle is in use, and otherwise passes over nothing free. */
  lemma {:induction false} FirstFreeMeans(last: int, max: nat, live: set<int>)
    requires -1 <= last <= max
    ensures FirstFree(last, max, live, 1) == -1 <==> AllUsed(max, live)
    ensures !AllUsed(max, live) ==>
      exists i: nat :: 1 <= i <= max + 1 && IsFirst(last, max, live, i, FirstFree(last, max, live, 1))
  {
    var i := Finds(last, max, live, 1);
    if FirstFree(last, max, live, 1) == -1 {
      forall h | 0 <= h <= max
        ensures h in live
      {
        var j := if h > last then h - last else h - last + (max + 1);
        assert Cyclic(last, j, max) == h;
      }
    }
  }

  ghost predicate IsFirst(last: int, max: nat, live: set<int>, i: nat, h: int) {
    h == Cyclic(last, i, max) && h !in live && forall j: nat :: 1 <= j < i ==> Cyclic(last, j, max) in live
  }

  lemma {:induction false} Finds(last: int, max: nat, live: set<int>, i: nat) returns (k: nat)
    requires -1 <= last <= max && 1 <= i <= max + 2
    requires forall j: nat :: 1 <= j < i ==> Cyclic(last, j, max) in live
    ensures 1 <= k <= max + 2
    ensures k == max + 2 ==> FirstFree(last, max, live, i) == -1
    ensures k <= max + 1 ==> IsFirst(last, max, live, k, FirstFree(last, max, live, i))
    ensures forall j: nat :: 1 <= j < k ==> Cyclic(last, j, max) in live
    decreases max + 2 - i
  {
    if i > max + 1 || Cyclic(last, i, max) !in live {
      k := i;
    } else {
      k := Finds(last, max, live, i + 1);
    }
  }

  /** The next handle after `last`: every one that is passed over on the way to it, up to max and from 0 on, is
      in use; -1 says that all are. */
  ghost predicate IsNext(last: int, max: nat, live: set<int>, h: int) {
    if h == -1 then forall x :: 0 <= x <= max ==> x in live
    else && 0 <= h <= max && h !in live
         && (h > last ==> forall x :: last < x < h ==> x in live)
         && (h <= last ==> forall x :: last < x <= max || 0 <= x < h ==> x in live)
  }

  lemma {:induction false} FirstFreeIsNext(last: int, max: nat, live: set<int>)
    requires -1 <= last <= max
    ensures IsNext(last, max, live, FirstFree(last, max, live, 1))
  {
    var h := FirstFree(last, max, live, 1);
    FirstFreeMeans(last, max, live);
    if h != -1 {
      var i: nat :| 1 <= i <= max + 1 && IsFirst(last, max, live, i, h);
      forall x | (last < x <= max && (x < h || h <= last)) || (0 <= x < h <= last)
        ensures x in live
      {
        assert x > last ==> Cyclic(last, x - last, max) == x;
        assert x < last ==> Cyclic(last, x - last + max + 1, max) == x;
      }
    }
  }

  // ---------- what the manager does ----------

  /** Handles in use lie in the range, and up to the first wrap-around not above the last one given. */
  ghost predicate Inv(m: Manager, max: nat, live: set<int>) {
    && -1 <= m.last <= max
    && (m.checks ==> m.last >= 0)
    && (forall h :: h in live ==> 0 <= h <= max)
    && (!m.checks ==> forall h :: h in live ==> h <= m.last)
  }

  /** The check is skipped until the first wrap-around. */
  function Given(m: Manager, max: nat, live: set<int>): int
    requires -1 <= m.last <= max
  {
    if m.checks || m.last == max then FirstFree(m.last, max, live, 1) else m.last + 1
  }

  function After(m: Manager, max: nat, live: set<int>): Manager
    requires -1 <= m.last <= max
  {
    var h := Given(m, max, live);
    Manager(if h == -1 then m.last else h, m.checks || m.last == max)
  }

  /** Skipping the check makes no difference. */
  lemma {:induction false} SkippingIsSound(m: Manager, max: nat, live: set<int>)
    requires Inv(m, max, live)
    ensures Given(m, max, live) == FirstFree(m.last, max, live, 1)
  {
    assert Cyclic(m.last, 1, max) == if m.last == max then 0 else m.last + 1;
  }

  lemma {:induction false} GivenKeeps(m: Manager, max: nat, live: set<int>)
    requires Inv(m, max, live)
    ensures var h := Given(m, max, live);
            Inv(After(m, max, live), max, if h == -1 then live else live + {h})
  {
  }

  /** One step of the cycle and of the search. */
  lemma {:induction false} Probe(last: int, max: nat, live: set<int>, i: nat)
    requires -1 <= last <= max && i <= max
    ensures Cyclic(last, i + 1, max) == if Cyclic(last, i, max) >= max then 0 else Cyclic(last, i, max) + 1
    ensures FirstFree(last, max, live, i + 1) ==
      if Cyclic(last, i + 1, max) !in live then Cyclic(last, i + 1, max) else FirstFree(last, max, live, i + 2)
    ensures FirstFree(last, max, live, max + 2) == -1
    ensures Cyclic(last, i + 1, max) == last <==> i == max && last >= 0
  {
  }

  // ---------- runs ----------

  /** A manager with the handles in use and all the handles given so far. */
  datatype World = World(m: Manager, live: set<int>, given: seq<int>)

  datatype Op = Get | Release(h: int)

  function Apply(w: World, max: nat, op: Op): World
    requires -1 <= w.m.last <= max
  {
    match op
    case Get =>
      var h := Given(w.m, max, w.live);
      if h == -1 then w.(m := After(w.m, max, w.live))
      else World(After(w.m, max, w.live), w.live + {h}, w.given + [h])
    case Release(h) => w.(live := w.live - {h})
  }

  ghost predicate WorldInv(w: World, max: nat) {
    && Inv(w.m, max, w.live)
    && (!w.m.checks ==> |w.given| == w.m.last + 1 && forall i :: 0 <= i < |w.given| ==> w.given[i] == i)
  }

  /** One step: a handle is never given while it is in use, none is given exactly when all are in use, and
      then nothing changes except that the manager has started to check. */
  lemma {:induction false} StepKeeps(w: World, max: nat, op: Op)
    requires WorldInv(w, max)
    ensures WorldInv(Apply(w, max, op), max)
    ensures op.Get? ==>
      var w1 := Apply(w, max, op);
      if AllUsed(max, w.live) then w1 == w.(m := Manager(w.m.last, true))
      else |w1.given| == |w.given| + 1 && w1.given[|w.given|] !in w.live && w1.m.last == w1.given[|w.given|]
  {
    if op.Get? {
      SkippingIsSound(w.m, max, w.live);
      FirstFreeMeans(w.m.last, max, w.live);
      if AllUsed(max, w.live) { assert max in w.live; }
    }
  }

  function Run(w: World, max: nat, ops: seq<Op>): (w1: World)
    requires -1 <= w.m.last <= max
    ensures -1 <= w1.m.last <= max
    decreases |ops|
  {
    if ops == [] then w else Run(Apply(w, max, ops[0]), max, ops[1..])
  }

  /** Until the first wrap-around the handles given are 0, 1, 2, .. and at any time those in use lie in
      the range. */
  lemma {:induction false} RunKeeps(w: World, max: nat, ops: seq<Op>)
    requires WorldInv(w, max)
    ensures WorldInv(Run(w, max, ops), max)
    decreases |ops|
  {
    if ops != [] {
      StepKeeps(w, max, ops[0]);
      RunKeeps(Apply(w, max, ops[0]), max, ops[1..]);
    }
  }

  /** So it is over every run of a new manager. */
  lemma {:induction false} RunFromStart(max: nat, ops: seq<Op>)
    ensures WorldInv(Run(World(INIT, {}, []), max, ops), max)
  {
    RunKeeps(World(INIT, {}, []), max, ops);
  }

  // ---------- the manager in memory ----------

  class IntHandleManager {
    var lastHandle: int
    const maxValue: int
    var checkValueInUse: bool

    function State(): Manager
      reads this
    {
      Manager(lastHandle, checkValueInUse)
    }

    constructor (maxValue: int)
      ensures State() == INIT && this.maxValue == maxValue
      ensures lastHandle == -1 && !checkValueInUse
    {
      lastHandle, checkValueInUse := -1, false;
      this.maxValue := maxValue;
    }

    /** `live` is what the value-in-use function reports. At most one lap of probes is made. */
    method GetNext(live: set<int>) returns (handle: int, ghost probes: nat)
      requires Inv(State(), Limit(maxValue), live)
      modifies this
      ensures handle == Given(old(State()), Limit(maxValue), live)
      ensures State() == After(old(State()), Limit(maxValue), live)
      ensures handle == FirstFree(old(lastHandle), Limit(maxValue), live, 1)
      ensures maxValue >= 0 ==> IsNext(old(lastHandle), maxValue, live, handle)
      ensures maxValue < 0 ==> IsNext(old(lastHandle), 0x7fff_ffff, live, handle)
      ensures maxValue >= 0 ==> handle <= maxValue
      ensures maxValue < 0 ==> handle <= 0x7fff_ffff
      ensures handle == -1 <==> forall h :: 0 <= h <= (if maxValue >= 0 then maxValue else 0x7fff_ffff) ==> h in live
      ensures lastHandle == if handle == -1 then old(lastHandle) else handle
      ensures checkValueInUse <==>
        old(checkValueInUse) || old(lastHandle) == if maxValue >= 0 then maxValue else 0x7fff_ffff
      ensures 1 <= probes <= Limit(maxValue) + 1
      ensures if handle == -1 then probes == Limit(maxValue) + 1
              else handle == Cyclic(old(lastHandle), probes, Limit(maxValue))
      ensures Inv(State(), Limit(maxValue), if handle == -1 then live else live + {handle})
    {
      SkippingIsSound(State(), Limit(maxValue), live);
      GivenKeeps(State(), Limit(maxValue), live);
      FirstFreeIsNext(lastHandle, Limit(maxValue), live);
      var isUsed, newHandle;
      isUsed, newHandle, probes := Search(live);
      if isUsed {
        handle := -1;
      } else {
        lastHandle := newHandle;
        handle := newHandle;
      }
    }

    /** The do-while loop. */
    method Search(live: set<int>) returns (isUsed: bool, newHandle: int, ghost probes: nat)
      requires -1 <= lastHandle <= Limit(maxValue) && (checkValueInUse ==> lastHandle >= 0)
      requires !checkValueInUse && lastHandle < Limit(maxValue) ==> lastHandle + 1 !in live
      modifies this`checkValueInUse
      ensures 1 <= probes <= Limit(maxValue) + 1 && newHandle == Cyclic(lastHandle, probes, Limit(maxValue))
      ensures checkValueInUse == (old(checkValueInUse) || lastHandle == Limit(maxValue))
      ensures FirstFree(lastHandle, Limit(maxValue), live, 1) == if isUsed then -1 else newHandle
      ensures isUsed ==> probes == Limit(maxValue) + 1
    {
      newHandle := lastHandle;
      isUsed := false;
      probes := 0;
      var maxHandle := Limit(maxValue);
      while true
        invariant probes <= maxHandle && newHandle == Cyclic(lastHandle, probes, maxHandle)
        invariant checkValueInUse == (old(checkValueInUse) || (lastHandle == maxHandle && probes > 0))
        invariant (isUsed || probes > 0) ==> checkValueInUse
        invariant FirstFree(lastHandle, maxHandle, live, 1) == FirstFree(lastHandle, maxHandle, live, probes + 1)
        decreases maxHandle - probes
      {
        Probe(lastHandle, maxHandle, live, probes);
        if newHandle >= maxHandle {
          newHandle := 0;
          checkValueInUse := true;
        } else {
          newHandle := newHandle + 1;
        }
        probes := probes + 1;
        if checkValueInUse { isUsed := newHandle in live; }
        if !(isUsed && newHandle != lastHandle) { break; }
      }
    }
  }
}
