/** Whole runs of operations on one tree. */
module RbRuns {
  import opened RbContents
  import opened RbShape
  import opened RbWalk
  import opened RbTree
  import RbClear

  datatype Op = Insert(v: Value, canAlloc: bool) | Remove(v: Value)

  /** What one operation makes of the contents s. */
  ghost function Applied(cmp: Order, s: seq<Value>, op: Op): seq<Value> {
    match op
    case Insert(v, canAlloc) => if Holds(cmp, s, v) || !canAlloc then s else With(cmp, s, v)
    case Remove(v) => if Holds(cmp, s, v) then Without(cmp, s, v) else s
  }

  ghost function Answer(cmp: Order, s: seq<Value>, op: Op): Result {
    match op
    case Insert(v, canAlloc) => if Holds(cmp, s, v) then Exists else if canAlloc then Ok else NoMem
    case Remove(v) => if Holds(cmp, s, v) then Ok else NotFound
  }

  /** The contents after the operations, starting with an empty tree. */
  ghost function Final(cmp: Order, ops: seq<Op>): seq<Value> {
    if ops == [] then [] else Applied(cmp, Final(cmp, ops[..|ops| - 1]), ops[|ops| - 1])
  }

  /** What the operations of a run answer. */
  ghost function Answers(cmp: Order, ops: seq<Op>): seq<Result> {
    if ops == [] then []
    else
      var before := ops[..|ops| - 1];
      Answers(cmp, before) + [Answer(cmp, Final(cmp, before), ops[|ops| - 1])]
  }

  lemma {:induction false} OneMoreOp(cmp: Order, ops: seq<Op>, i: nat)
    requires i < |ops|
    ensures Final(cmp, ops[..i + 1]) == Applied(cmp, Final(cmp, ops[..i]), ops[i])
    ensures Answers(cmp, ops[..i + 1]) == Answers(cmp, ops[..i]) + [Answer(cmp, Final(cmp, ops[..i]), ops[i])]
  {
    assert ops[..i + 1][..i] == ops[..i];
  }

  // ---------- what a run leaves ----------

  /** v was inserted, and since then no equal value was removed. */
  ghost predicate InsertedLast(cmp: Order, ops: seq<Op>, v: Value) {
    ops != [] &&
    var op, before := ops[|ops| - 1], ops[..|ops| - 1];
    if cmp(op.v, v) != 0 then InsertedLast(cmp, before, v)
    else op.Insert? && (op.canAlloc || InsertedLast(cmp, before, v))
  }

  lemma {:induction false} HoldsParts(cmp: Order, l: seq<Value>, x: Value, r: seq<Value>, w: Value)
    ensures Holds(cmp, l + [x] + r, w) <==> Holds(cmp, l + r, w) || cmp(x, w) == 0
  {
    var s, t := l + r, l + [x] + r;
    assert t[|l|] == x;
    if Holds(cmp, s, w) {
      var i :| 0 <= i < |s| && cmp(s[i], w) == 0;
      assert t[if i < |l| then i else i + 1] == s[i];
    }
    if Holds(cmp, t, w) && cmp(x, w) != 0 {
      var i :| 0 <= i < |t| && cmp(t[i], w) == 0;
      assert s[if i < |l| then i else i - 1] == t[i];
    }
  }

  /** Values that compare equal compare alike with any other. */
  lemma {:induction false} Alike(cmp: Order, v: Value, w: Value, x: Value)
    requires TotalOrder(cmp) && cmp(v, w) == 0
    ensures cmp(x, v) == 0 <==> cmp(x, w) == 0
    ensures cmp(v, x) == 0 <==> cmp(w, x) == 0
    ensures cmp(x, w) == 0 <==> cmp(w, x) == 0
  {
  }

  lemma {:induction false} HoldsAlike(cmp: Order, s: seq<Value>, v: Value, w: Value)
    requires TotalOrder(cmp) && cmp(v, w) == 0
    ensures Holds(cmp, s, v) <==> Holds(cmp, s, w)
  {
    forall i | 0 <= i < |s|
      ensures cmp(s[i], v) == 0 <==> cmp(s[i], w) == 0
    {
      Alike(cmp, v, w, s[i]);
    }
  }

  /** One operation: the contents stay in order, and membership changes for equal values only. */
  lemma {:induction false} AppliedKeeps(cmp: Order, s: seq<Value>, op: Op, w: Value)
    requires TotalOrder(cmp) && Sorted(cmp, s)
    ensures Sorted(cmp, Applied(cmp, s, op)) && |Applied(cmp, s, op)| <= |s| + 1
    ensures Holds(cmp, Applied(cmp, s, op), w) <==>
      if cmp(op.v, w) != 0 then Holds(cmp, s, w) else op.Insert? && (op.canAlloc || Holds(cmp, s, w))
  {
    if cmp(op.v, w) == 0 { HoldsAlike(cmp, s, op.v, w); }
    if op.Insert? && op.canAlloc && !Holds(cmp, s, op.v) {
      WithSorted(cmp, s, op.v);
      var l, r := Parts(cmp, s, op.v);
      HoldsParts(cmp, l, op.v, r, w);
    } else if op.Remove? && Holds(cmp, s, op.v) {
      WithoutSorted(cmp, s, op.v);
      var l, x, r := PartsAround(cmp, s, op.v);
      HoldsParts(cmp, l, x, r, w);
      RemovedAlike(cmp, s, l, x, r, op.v, w);
    }
  }

  lemma {:induction false} RemovedAlike(cmp: Order, s: seq<Value>, l: seq<Value>, x: Value, r: seq<Value>,
                                        v: Value, w: Value)
    requires TotalOrder(cmp) && cmp(x, v) == 0 && !Holds(cmp, l + r, v)
    ensures cmp(v, w) == 0 <==> cmp(x, w) == 0
    ensures cmp(v, w) == 0 ==> !Holds(cmp, l + r, w)
  {
    Alike(cmp, x, v, w);
    if cmp(v, w) == 0 { HoldsAlike(cmp, l + r, v, w); }
  }

  /** After any run the contents are in order, and hold exactly what was inserted and not removed since. */
  lemma {:induction false} RunHolds(cmp: Order, ops: seq<Op>, v: Value)
    requires TotalOrder(cmp)
    ensures Sorted(cmp, Final(cmp, ops)) && |Final(cmp, ops)| <= |ops|
    ensures Holds(cmp, Final(cmp, ops), v) <==> InsertedLast(cmp, ops, v)
  {
    if ops != [] {
      var before := ops[..|ops| - 1];
      RunHolds(cmp, before, v);
      AppliedKeeps(cmp, Final(cmp, before), ops[|ops| - 1], v);
    }
  }

  // ---------- runs on the heap ----------

  method Apply(t: RbTree, op: Op) returns (result: Result, ghost joined: set<Node>)
    requires t.Valid() && Height(t.shape) <= MAX_HEIGHT
    modifies t, Nodes(t.shape)
    ensures t.Valid() && t.Counted() == old(t.Counted())
    ensures t.Contents() == Applied(t.cmp, old(t.Contents()), op)
    ensures result == Answer(t.cmp, old(t.Contents()), op)
    ensures fresh(joined) && Nodes(t.shape) <= old(Nodes(t.shape)) + joined
  {
    ghost var before := Nodes(t.shape);
    match op {
      case Insert(v, canAlloc) =>
        ghost var rounds;
        result, rounds := t.Insert(v, canAlloc);
      case Remove(v) =>
        var removed;
        ghost var rounds;
        result, removed, rounds := t.RemoveWithCb(v);
    }
    joined := Nodes(t.shape) - before;
  }

  lemma {:induction false} StaysLow(cmp: Order, ops: seq<Op>, t: Tree)
    requires TotalOrder(cmp) && |ops| < 0x1_0000_0000 && Rb(t) && !IsRed(t) && In(t) == Final(cmp, ops)
    ensures Height(t) <= MAX_HEIGHT
  {
    if ops != [] { RunHolds(cmp, ops, ops[0].v); }
    FitsThePath(t);
  }

  /** Any run of insertions and removals on a new tree. */
  method Perform(cmp: Order, ops: seq<Op>) returns (t: RbTree, results: seq<Result>)
    requires TotalOrder(cmp) && |ops| < 0x1_0000_0000
    ensures t.Valid() && t.Counted() && t.cmp == cmp && t.Contents() == Final(cmp, ops)
    ensures results == Answers(cmp, ops)
    ensures fresh(t) && fresh(Nodes(t.shape))
  {
    t := new RbTree(cmp);
    results := [];
    ghost var nodes := Nodes(t.shape);
    for i := 0 to |ops|
      invariant fresh(t) && fresh(nodes) && Nodes(t.shape) <= nodes
      invariant t.cmp == cmp && t.Valid() && t.Counted()
      invariant t.Contents() == Final(cmp, ops[..i]) && results == Answers(cmp, ops[..i])
    {
      StaysLow(cmp, ops[..i], t.shape);
      OneMoreOp(cmp, ops, i);
      var result;
      ghost var joined;
      result, joined := Apply(t, ops[i]);
      results := results + [result];
      nodes := nodes + joined;
    }
    assert ops[..|ops|] == ops;
  }

  /** Clearing the tree after any run passes on exactly what it left, in ascending order. */
  method PerformAndClear(cmp: Order, ops: seq<Op>) returns (calls: seq<(Node, Value)>)
    requires TotalOrder(cmp) && |ops| < 0x1_0000_0000
    ensures |calls| == |Final(cmp, ops)|
    ensures forall i :: 0 <= i < |calls| ==> calls[i].1 == Final(cmp, ops)[i]
  {
    var t, _ := Perform(cmp, ops);
    RbClear.ItemsValues(t.shape);
    calls := t.ClearWithCb();
  }

  /** Two values in, one of them out: the other is left. */
  method TwoInOneOut(cmp: Order, v: Value, w: Value) returns (t: RbTree, results: seq<Result>)
    requires TotalOrder(cmp) && cmp(v, w) < 0
    ensures t.Valid() && t.Contents() == [w] && t.size == 1
    ensures results == [Ok, Ok, Ok]
  {
    TwoContents(cmp, v, w);
    var ops := [Insert(v, true), Insert(w, true), Remove(v)];
    ThreeOps(cmp, ops);
    t, results := Perform(cmp, ops);
  }

  lemma {:induction false} ThreeOps(cmp: Order, ops: seq<Op>)
    requires |ops| == 3
    ensures var s := Applied(cmp, [], ops[0]);
            var u := Applied(cmp, s, ops[1]);
            && Final(cmp, ops) == Applied(cmp, u, ops[2])
            && Answers(cmp, ops) == [Answer(cmp, [], ops[0]), Answer(cmp, s, ops[1]), Answer(cmp, u, ops[2])]
  {
    OneMoreOp(cmp, ops, 0);
    OneMoreOp(cmp, ops, 1);
    OneMoreOp(cmp, ops, 2);
    assert ops[..0] == [] && ops[..3] == ops;
  }

  lemma {:induction false} TwoContents(cmp: Order, v: Value, w: Value)
    requires TotalOrder(cmp) && cmp(v, w) < 0
    ensures !Holds(cmp, [], v) && With(cmp, [], v) == [v]
    ensures !Holds(cmp, [v], w) && With(cmp, [v], w) == [v, w]
    ensures Holds(cmp, [v, w], v) && Without(cmp, [v, w], v) == [w]
  {
    SelfEqual(cmp, v);
    FirstOut(cmp, v, w);
  }

  lemma {:induction false} FirstOut(cmp: Order, v: Value, w: Value)
    requires cmp(v, w) < 0 && cmp(v, v) == 0
    ensures !Holds(cmp, [v], w) && With(cmp, [v], w) == [v, w]
    ensures Holds(cmp, [v, w], v) && Without(cmp, [v, w], v) == [w]
  {
    WithSplits(cmp, [v], [], w);
    WithoutSplits(cmp, [], v, [w], v);
    assert [v] + [] == [v] && [v] + [w] + [] == [v, w];
    assert [] + [v] + [w] == [v, w] && [] + [w] == [w];
    assert [v, w][0] == v;
  }
}
