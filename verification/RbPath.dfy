/** Moving a hole up and down a tree: what the loops of insertion and removal have in common. */
module RbPath {
  import opened RbContents
  import opened RbShape

  /** The path c and the subtree s are parts of one valid red-black tree (whose root may be red). */
  ghost predicate Whole(c: Ctx, s: Tree) {
    Apart(c, s) && Rb(s) && CRb(c, Bh(s)) && !(CRed(c) && IsRed(s))
  }

  ghost function Down(c: Ctx, s: Tree, d: bool): Ctx
    requires s.Branch?
  {
    Step(s.node, s.red, s.value, d, Child(s, !d), c)
  }

  /** The subtree one level above the hole of c when s fills the hole. */
  ghost function Above(c: Ctx, s: Tree): Tree
    requires c.Step?
  {
    Make(c.node, c.red, c.value, c.dir, s, c.sib)
  }

  lemma {:induction false} DownWhole(c: Ctx, s: Tree, d: bool)
    requires Whole(c, s) && s.Branch?
    ensures Whole(Down(c, s, d), Child(s, d))
    ensures CNodes(Down(c, s, d)) + Nodes(Child(s, d)) == CNodes(c) + Nodes(s)
  {
  }

  /** Moving down in direction d passes s.value and the other child on the far side. */
  lemma {:induction false} DownSplits(c: Ctx, s: Tree, d: bool)
    requires s.Branch?
    ensures Before(Down(c, s, d)) + In(Child(s, d)) + After(Down(c, s, d)) == Before(c) + In(s) + After(c)
    ensures Before(c) + In(s) + After(c) == (Before(c) + In(s.left)) + [s.value] + (In(s.right) + After(c))
    ensures d ==> Before(Down(c, s, d)) == (Before(c) + In(s.left)) + [s.value] && After(Down(c, s, d)) == After(c)
    ensures !d ==> Before(Down(c, s, d)) == Before(c) && After(Down(c, s, d)) == [s.value] + (In(s.right) + After(c))
  {
    Regroup(Before(c), In(s.left), s.value, In(s.right), After(c));
    Middle(Before(c), In(s.left), s.value, In(s.right), After(c));
  }

  lemma {:induction false} Middle(a: seq<Value>, b: seq<Value>, v: Value, c: seq<Value>, d: seq<Value>)
    ensures a + (b + [v] + c) + d == (a + b) + [v] + (c + d)
    ensures [v] + c + d == [v] + (c + d)
  {
  }

  lemma {:induction false} SplitSorted(cmp: Order, l: seq<Value>, x: Value, r: seq<Value>, v: Value)
    requires TotalOrder(cmp) && Sorted(cmp, l + [x] + r)
    ensures cmp(x, v) <= 0 ==> AllBelow(cmp, l, v)
    ensures cmp(x, v) >= 0 ==> AllAbove(cmp, r, v)
  {
    var s := l + [x] + r;
    assert s[|l|] == x;
    forall i | 0 <= i < |l|
      ensures cmp(l[i], x) < 0
    {
      assert s[i] == l[i];
    }
    forall i | 0 <= i < |r|
      ensures cmp(x, r[i]) < 0
    {
      assert s[|l| + 1 + i] == r[i];
    }
  }

  lemma {:induction false} BelowSnoc(cmp: Order, l: seq<Value>, x: Value, v: Value)
    requires AllBelow(cmp, l, v) && cmp(x, v) < 0
    ensures AllBelow(cmp, l + [x], v)
  {
  }

  lemma {:induction false} AboveCons(cmp: Order, x: Value, r: seq<Value>, v: Value)
    requires AllAbove(cmp, r, v) && cmp(x, v) > 0
    ensures AllAbove(cmp, [x] + r, v)
  {
  }

  /** A step of the search for v leaves smaller values behind on the left and larger ones on the right. */
  lemma {:induction false} StepSplits(c: Ctx, s: Tree, cmp: Order, v: Value)
    requires s.Branch? && cmp(s.value, v) != 0 && AllBelow(cmp, Before(c), v) && AllAbove(cmp, After(c), v)
    requires TotalOrder(cmp) && Sorted(cmp, Before(c) + In(s) + After(c))
    ensures var d := cmp(s.value, v) < 0;
            && AllBelow(cmp, Before(Down(c, s, d)), v) && AllAbove(cmp, After(Down(c, s, d)), v)
            && Before(Down(c, s, d)) + In(Child(s, d)) + After(Down(c, s, d)) == Before(c) + In(s) + After(c)
  {
    var l, r := Before(c) + In(s.left), In(s.right) + After(c);
    DownSplits(c, s, cmp(s.value, v) < 0);
    SplitSorted(cmp, l, s.value, r, v);
    if cmp(s.value, v) < 0 {
      BelowSnoc(cmp, l, s.value, v);
    } else {
      AboveCons(cmp, s.value, r, v);
    }
  }

  lemma {:induction false} LiftApart(c: Ctx, s: Tree)
    requires c.Step? && Apart(c, s)
    ensures Apart(c.up, Above(c, s))
    ensures Nodes(Above(c, s)) + CNodes(c.up) == Nodes(s) + CNodes(c)
  {
  }

  lemma {:induction false} BelowPrefix(cmp: Order, a: seq<Value>, b: seq<Value>, v: Value)
    requires AllBelow(cmp, a + b, v)
    ensures AllBelow(cmp, a, v)
  {
    assert forall i :: 0 <= i < |a| ==> (a + b)[i] == a[i];
  }

  lemma {:induction false} AboveSuffix(cmp: Order, a: seq<Value>, b: seq<Value>, v: Value)
    requires AllAbove(cmp, a + b, v)
    ensures AllAbove(cmp, b, v)
  {
    assert forall i :: 0 <= i < |b| ==> (a + b)[|a| + i] == b[i];
  }

  /** The node one of whose links is the hole of c; the false root for an empty path. */
  ghost function Holder(c: Ctx, head: Node): Node {
    if c.Top? then head else c.node
  }

  lemma {:induction false} RepDown(c: Ctx, s: Tree, d: bool, q: Node, root: Node?)
    requires RepCtx(c, q, root) && Rep(q, s)
    ensures RepCtx(Down(c, s, d), q.link.At(d), root)
    ensures Rep(q.link.At(d), Child(s, d))
  {
  }

  lemma {:induction false} RepUnder(c: Ctx, s: Tree, n: Node, root: Node?)
    requires c.Step? && RepCtx(c.up, n, root) && Rep(n, Above(c, s))
    ensures RepCtx(c, n.link.At(c.dir), root) && Rep(n.link.At(c.dir), s)
  {
  }

  /** Makes link d of t, the one that held `was`, hold r instead. */
  method Hang(t: Node, d: bool, was: Node, r: Node?, ghost head: Node, ghost u: Ctx, ghost x: Tree)
    requires RepCtx(u, was, head.link.right) && CDistinct(u)
    requires was !in CNodes(u) && head !in CNodes(u) && t == Holder(u, head)
    requires d == (t.link.right == was)
    requires Rep(r, x) && t !in Nodes(x)
    modifies t
    ensures RepCtx(u, r, head.link.right) && Rep(r, x)
    ensures t.red == old(t.red) && t.value == old(t.value) && t.link == old(t.link).With(d, r)
  {
    assert u.Step? && !u.dir ==> Rep(t.link.right, u.sib);
    t.link := t.link.With(d, r);
  }

  ghost function Blackened(t: Tree): Tree
    requires t.Branch?
  {
    t.(red := false)
  }

  /** "Make the root black". */
  method Blacken(root: Node, ghost t: Tree)
    requires Rep(root, t) && Distinct(t) && Rb(t)
    modifies root
    ensures Rep(root, Blackened(t)) && Distinct(Blackened(t)) && Rb(Blackened(t)) && !IsRed(Blackened(t))
    ensures In(Blackened(t)) == In(t) && Nodes(Blackened(t)) == Nodes(t)
    ensures root.value == old(root.value)
  {
    BlackenedKeeps(t);
    root.red := false;
  }

  lemma {:induction false} BlackenedKeeps(t: Tree)
    requires t.Branch?
    ensures Rb(t) ==> Rb(Blackened(t))
    ensures Distinct(t) ==> Distinct(Blackened(t))
    ensures In(Blackened(t)) == In(t) && Nodes(Blackened(t)) == Nodes(t)
  {
  }
}
