/** Whole traversals: what loops over first, next, last and prev get to see. */
module RbTraversal {
  import opened Options
  import opened RbContents
  import opened RbShape
  import opened RbWalk
  import opened RbTree

  /** From first with next until null: every value once, in ascending order. */
  method Ascending(t: RbTree) returns (values: seq<Value>)
    requires t.Valid() && Height(t.shape) <= MAX_HEIGHT
    ensures values == t.Contents()
  {
    Exist(t.shape);
    var iter := new RbIter();
    var val := iter.First(t);
    values := Upwards(iter, val, t.Contents(), 0);
  }

  /** The values not below v, in ascending order. */
  method AscendingFrom(t: RbTree, v: Value) returns (values: seq<Value>)
    requires t.Valid() && Height(t.shape) <= MAX_HEIGHT
    ensures values == t.Contents()[Rank(t.cmp, t.Contents(), v)..]
  {
    Exist(t.shape);
    var iter := new RbIter();
    var val := iter.LowerBound(t, v);
    values := Upwards(iter, val, t.Contents(), Rank(t.cmp, t.Contents(), v));
  }

  /** The values above v, in ascending order. */
  method AscendingAbove(t: RbTree, v: Value) returns (values: seq<Value>)
    requires t.Valid() && Height(t.shape) <= MAX_HEIGHT
    ensures values == t.Contents()[UpperRank(t.cmp, t.Contents(), v)..]
  {
    Exist(t.shape);
    var iter := new RbIter();
    var val := iter.UpperBound(t, v);
    values := Upwards(iter, val, t.Contents(), UpperRank(t.cmp, t.Contents(), v));
  }

  /** The iterator stands at position i of the values `all`; -1 and |all| are beyond the ends. */
  ghost predicate At(iter: RbIter, all: seq<Value>, i: int, val: Option<Value>)
    reads iter, iter.path, iter.tree, if iter.tree != null then Nodes(iter.tree.shape) else {}
  {
    && iter.Valid() && iter.tree.Contents() == all && -1 <= i <= |all|
    && (if 0 <= i < |all| then iter.node != null && iter.Pos() == i && val == Some(all[i])
        else iter.node == null && val == None)
  }

  lemma {:induction false} OneMoreAhead(all: seq<Value>, i: nat)
    requires i < |all|
    ensures all[i..] == [all[i]] + all[i + 1..]
  {
  }

  /** What next still returns, after the value the iterator stands at. */
  method Upwards(iter: RbIter, val: Option<Value>, ghost all: seq<Value>, ghost i: nat) returns (values: seq<Value>)
    requires At(iter, all, i, val)
    modifies iter, iter.path
    ensures values == all[i..]
    decreases |all| - i
  {
    if val.None? { return []; }
    var next := StepUp(iter, all, i);
    var rest := Upwards(iter, next, all, i + 1);
    values := [val.value] + rest;
    OneMoreAhead(all, i);
  }

  method StepUp(iter: RbIter, ghost all: seq<Value>, ghost i: nat) returns (val: Option<Value>)
    requires i < |all| && At(iter, all, i, Some(all[i]))
    modifies iter, iter.path
    ensures iter.path == old(iter.path) && At(iter, all, i + 1, val)
  {
    val := iter.Next();
  }

  ghost function Reversed(s: seq<Value>): (r: seq<Value>)
    ensures |r| == |s| && forall i :: 0 <= i < |s| ==> r[i] == s[|s| - 1 - i]
  {
    seq(|s|, i requires 0 <= i < |s| => s[|s| - 1 - i])
  }

  lemma {:induction false} WholeReversed(all: seq<Value>)
    ensures Reversed(all[..|all| - 1 + 1]) == Reversed(all)
  {
    assert all[..|all| - 1 + 1] == all;
  }

  /** From last with prev until null: the same in descending order. */
  method Descending(t: RbTree) returns (values: seq<Value>)
    requires t.Valid() && Height(t.shape) <= MAX_HEIGHT
    ensures values == Reversed(t.Contents())
  {
    Exist(t.shape);
    var iter := new RbIter();
    var val := iter.Last(t);
    WholeReversed(t.Contents());
    values := Downwards(iter, val, t.Contents(), |t.Contents()| - 1);
  }

  lemma {:induction false} OneMoreReversed(all: seq<Value>, i: nat)
    requires i < |all|
    ensures Reversed(all[..i + 1]) == [all[i]] + Reversed(all[..i])
  {
  }

  /** What prev still returns, after the value the iterator stands at. */
  method Downwards(iter: RbIter, val: Option<Value>, ghost all: seq<Value>, ghost i: int) returns (values: seq<Value>)
    requires At(iter, all, i, val) && i < |all|
    modifies iter, iter.path
    ensures values == Reversed(all[..i + 1])
    decreases i
  {
    if val.None? { return []; }
    var next := StepDown(iter, all, i);
    var rest := Downwards(iter, next, all, i - 1);
    values := [val.value] + rest;
    OneMoreReversed(all, i);
  }

  method StepDown(iter: RbIter, ghost all: seq<Value>, ghost i: nat) returns (val: Option<Value>)
    requires i < |all| && At(iter, all, i, Some(all[i]))
    modifies iter, iter.path
    ensures iter.path == old(iter.path) && At(iter, all, i - 1, val)
  {
    val := iter.Prev();
  }

  /** Two iterators at the same position of a tree stand on the same node with the same path. */
  lemma {:induction false} SamePlace(a: Place, b: Place, t: Tree)
    requires a.s.Branch? && b.s.Branch? && Plug(a.c, a.s) == Plug(b.c, b.s) == t
    requires Index(a.c, a.s) == Index(b.c, b.s)
    ensures a.s.node == b.s.node && Spine(a.c) == Spine(b.c)
  {
    PlaceIsUnique(a.c, a.s, b.c, b.s);
  }

  /** Away from the end, prev takes back what next did. */
  method NextPrev(iter: RbIter)
    requires iter.Valid() && iter.node != null && iter.Pos() + 1 < |iter.tree.Contents()|
    modifies iter, iter.path
    ensures iter.path == old(iter.path) && iter.tree == old(iter.tree) && iter.Valid()
    ensures iter.node == old(iter.node) && iter.top == old(iter.top)
    ensures iter.path[..iter.top] == old(iter.path[..iter.top])
  {
    ghost var place := iter.place;
    var _ := iter.Next();
    var _ := iter.Prev();
    SamePlace(place, iter.place, iter.tree.shape);
  }

  /** Away from the beginning, next takes back what prev did. */
  method PrevNext(iter: RbIter)
    requires iter.Valid() && iter.node != null && iter.Pos() > 0
    modifies iter, iter.path
    ensures iter.path == old(iter.path) && iter.tree == old(iter.tree) && iter.Valid()
    ensures iter.node == old(iter.node) && iter.top == old(iter.top)
    ensures iter.path[..iter.top] == old(iter.path[..iter.top])
  {
    ghost var place := iter.place;
    var _ := iter.Prev();
    var _ := iter.Next();
    SamePlace(place, iter.place, iter.tree.shape);
  }
}
