/** The top-down insertion loop of etcpal_rbtree_insert_node. */
module RbInsert {
  import opened RbContents
  import opened RbShape
  import opened RbPath
  import opened RbRotate

  // ---------- what the loop keeps true of the whole tree ----------

  /** The search for v has the contents `all` split around the subtree s. */
  ghost predicate Searching(c: Ctx, s: Tree, cmp: Order, v: Value, all: seq<Value>) {
    && Before(c) + In(s) + After(c) == all
    && AllBelow(cmp, Before(c), v) && AllAbove(cmp, After(c), v)
    && Path(c, cmp, v)
  }

  lemma {:induction false} DownSearching(c: Ctx, s: Tree, cmp: Order, v: Value, all: seq<Value>)
    requires Searching(c, s, cmp, v, all) && s.Branch? && TotalOrder(cmp) && Sorted(cmp, all)
    requires cmp(s.value, v) != 0
    ensures var d := cmp(s.value, v) < 0; Searching(Down(c, s, d), Child(s, d), cmp, v, all)
  {
    StepSplits(c, s, cmp, v);
  }

  lemma {:induction false} LiftSearching(c: Ctx, s: Tree, cmp: Order, v: Value, all: seq<Value>)
    requires c.Step? && Searching(c, s, cmp, v, all)
    ensures Searching(c.up, Above(c, s), cmp, v, all)
    ensures cmp(c.value, v) != 0
  {
    Regroup(Before(c.up), In(s), c.value, In(c.sib), After(c.up));
    Regroup(Before(c.up), In(c.sib), c.value, In(s), After(c.up));
    if c.dir {
      assert Before(c) == Before(c.up) + (In(c.sib) + [c.value]);
      BelowPrefix(cmp, Before(c.up), In(c.sib) + [c.value], v);
      assert Before(c)[|Before(c)| - 1] == c.value;
    } else {
      assert After(c)[0] == c.value;
      assert After(c) == ([c.value] + In(c.sib)) + After(c.up);
      AboveSuffix(cmp, [c.value] + In(c.sib), After(c.up), v);
    }
  }

  // ---------- colour flip ----------

  /** A black node without red children: nothing will be flipped or rotated here. */
  ghost predicate Calm(s: Tree) {
    s.Branch? && !s.red && !IsRed(s.left) && !IsRed(s.right)
  }

  ghost function Flipped(s: Tree): Tree
    requires s.Branch? && s.left.Branch? && s.right.Branch?
  {
    s.(red := true, left := s.left.(red := false), right := s.right.(red := false))
  }

  lemma {:induction false} FlippedKeeps(s: Tree)
    requires s.Branch? && IsRed(s.left) && IsRed(s.right)
    ensures Rb(s) ==> Calm(Flipped(s).left) && Calm(Flipped(s).right)
    ensures Height(Flipped(s)) == Height(s)
    ensures Rb(s) ==> Rb(Flipped(s)) && Bh(Flipped(s)) == Bh(s)
    ensures In(Flipped(s)) == In(s) && Nodes(Flipped(s)) == Nodes(s)
    ensures Distinct(s) ==> Distinct(Flipped(s))
  {
    assert Nodes(Flipped(s).left) == Nodes(s.left) && Nodes(Flipped(s).right) == Nodes(s.right);
    assert Distinct(s.left) ==> Distinct(Flipped(s).left);
    assert Distinct(s.right) ==> Distinct(Flipped(s).right);
    assert Rb(s.left) ==> Rb(Flipped(s).left);
    assert Rb(s.right) ==> Rb(Flipped(s).right);
  }

  // ---------- rotations ----------

  /** A red node s under a red parent, and what the insertion knows around it. */
  ghost predicate Violation(c: Ctx, s: Tree) {
    && c.Step? && c.up.Step? && Apart(c, s)
    && IsRed(s) && c.red && Rb(s) && CRb(c, Bh(s)) && !IsRed(c.up.sib)
  }

  /** The tree at the grandparent of the hole. */
  ghost function Grand(c: Ctx, s: Tree): Tree
    requires c.Step? && c.up.Step?
  {
    Above(c.up, Above(c, s))
  }

  /** The tree the rotation leaves at the top in its place. */
  ghost function Repaired(c: Ctx, s: Tree): Tree
    requires c.Step? && c.up.Step? && s.Branch?
  {
    if c.dir == c.up.dir then Rotated(Grand(c, s), !c.up.dir) else Rotated2(Grand(c, s), !c.up.dir)
  }

  lemma {:induction false} RepairedApart(c: Ctx, s: Tree)
    requires c.Step? && c.up.Step? && s.Branch? && Apart(c, s)
    ensures Apart(c.up.up, Repaired(c, s))
    ensures Nodes(Repaired(c, s)) + CNodes(c.up.up) == Nodes(s) + CNodes(c)
  {
    LiftApart(c, s);
    LiftApart(c.up, Above(c, s));
    if c.dir == c.up.dir {
      RotatedKeeps(Grand(c, s), !c.up.dir);
    } else {
      Rotated2Keeps(Grand(c, s), !c.up.dir);
    }
  }

  lemma {:induction false} RepairedSearching(c: Ctx, s: Tree, cmp: Order, v: Value, all: seq<Value>)
    requires c.Step? && c.up.Step? && s.Branch? && Apart(c, s) && Searching(c, s, cmp, v, all)
    ensures Searching(c.up.up, Repaired(c, s), cmp, v, all)
  {
    LiftApart(c, s);
    LiftApart(c.up, Above(c, s));
    LiftSearching(c, s, cmp, v, all);
    LiftSearching(c.up, Above(c, s), cmp, v, all);
    if c.dir == c.up.dir {
      RotatedKeeps(Grand(c, s), !c.up.dir);
    } else {
      Rotated2Keeps(Grand(c, s), !c.up.dir);
    }
  }

  /** The rotation cures the violation: its result is a black-rooted valid subtree of the old height. */
  lemma {:induction false} RepairedWhole(c: Ctx, s: Tree)
    requires Violation(c, s)
    ensures Whole(c.up.up, Repaired(c, s)) && !Repaired(c, s).red
    ensures IsRed(Repaired(c, s).left) && IsRed(Repaired(c, s).right)
  {
    RepairedApart(c, s);
    assert CRb(c.up, Bh(s));
    assert Rb(c.up.sib) && Rb(c.sib) && Bh(c.up.sib) == Bh(s) == Bh(c.sib);
    var r := Repaired(c, s);
    if c.dir != c.up.dir {
      var p, g := Child(r, c.up.dir), Child(r, c.dir);
      assert p == Make(c.node, true, c.value, c.dir, Child(s, c.up.dir), c.sib);
      assert g == Make(c.up.node, true, c.up.value, c.up.dir, Child(s, c.dir), c.up.sib);
      assert Rb(p) && Rb(g);
    } else {
      var g := Child(r, !c.dir);
      assert g == Make(c.up.node, true, c.up.value, c.dir, c.sib, c.up.sib);
      assert Rb(g);
    }
  }

  // ---------- the code ----------

  /** "Hard red violation": rotate at the grandparent g and hang the result from t. */
  method Repair(t: Node, g: Node, p: Node, q: Node, last: bool, ghost head: Node, ghost c: Ctx, ghost s: Tree)
    requires c.Step? && c.up.Step? && s.Branch? && Apart(c, s) && head !in CNodes(c) + Nodes(s)
    requires RepCtx(c, q, head.link.right) && Rep(q, s)
    requires p == c.node && g == c.up.node && last == c.up.dir && t == Holder(c.up.up, head)
    modifies t, g, p, q
    ensures RepCtx(c.up.up, Repaired(c, s).node, head.link.right)
    ensures Rep(Repaired(c, s).node, Repaired(c, s))
  {
    SeeGrand(c, s, q, head.link.right);
    var dir2 := t.link.right == g;
    var r := RotateTop(g, p, q, last, c, s);
    RepairedApart(c, s);
    Hang(t, dir2, g, r, head, c.up.up, Repaired(c, s));
  }

  lemma {:induction false} SeeGrand(c: Ctx, s: Tree, q: Node, root: Node?)
    requires c.Step? && c.up.Step? && s.Branch? && Apart(c, s)
    requires RepCtx(c, q, root) && Rep(q, s)
    ensures Rep(c.node, Above(c, s)) && Rep(c.up.node, Grand(c, s)) && Distinct(Grand(c, s))
    ensures RepCtx(c.up.up, c.up.node, root) && CDistinct(c.up.up)
    ensures {c.up.node, c.node, q} !! CNodes(c.up.up)
    ensures forall x :: x in CNodes(c.up.up) ==> allocated(x)
  {
    LiftApart(c, s);
    LiftApart(c.up, Above(c, s));
    assert RepCtx(c.up, c.node, root) && Rep(c.node, Above(c, s));
    CExist(c.up.up);
  }

  method RotateTop(g: Node, p: Node, q: Node, last: bool, ghost c: Ctx, ghost s: Tree) returns (r: Node)
    requires c.Step? && c.up.Step? && s.Branch? && Distinct(Grand(c, s))
    requires Rep(g, Grand(c, s)) && Rep(p, Above(c, s)) && q == s.node && last == c.up.dir
    modifies g, p, q
    ensures r == Repaired(c, s).node && Rep(r, Repaired(c, s))
  {
    assert Child(Grand(c, s), last) == Above(c, s);
    if q == p.link.At(last) {
      r := Rotate(g, !last, Grand(c, s));
    } else {
      r := Rotate2(g, !last, Grand(c, s));
    }
  }

  // ---------- the loop of etcpal_rbtree_insert_node ----------

  /** The child of s the search for v goes to. */
  ghost function Turn(s: Tree, cmp: Order, v: Value): Tree
    requires s.Branch?
  {
    Child(s, cmp(s.value, v) < 0)
  }

  /** g is the grandparent of the hole, reached in direction `last` (null if there is none). */
  ghost predicate GrandTrue(c: Ctx, head: Node, t: Node, g: Node?, last: bool) {
    && c.Step?
    && (c.up.Top? ==> g == null && t == head)
    && (c.up.Step? ==> g == c.up.node && last == c.up.dir)
  }

  /** t is the great-grandparent of the hole. */
  ghost predicate GreatTrue(c: Ctx, head: Node, t: Node) {
    c.Step? && c.up.Step? && t == Holder(c.up.up, head)
  }

  /** What the trailing helpers still mean. p and dir are always right. After a rotation g and t
      are stale for a step or two, but only where the colours rule out another rotation. */
  ghost predicate Helpers(c: Ctx, s: Tree, cmp: Order, v: Value, head: Node,
                          t: Node, g: Node?, p: Node?, dir: bool, last: bool) {
    match c
    case Top => p == null && g == null && t == head && s.Branch? && !s.red
    case Step(n, red, _, d, sib, up) =>
      && p == n && dir == d
      && (!GrandTrue(c, head, t, g, last) ==> !red && IsRed(s) && Calm(Turn(s, cmp, v)))
      && (red && !Calm(s) ==>
            GrandTrue(c, head, t, g, last) && GreatTrue(c, head, t) && !IsRed(up.sib))
      && (!red && IsRed(s) && !Calm(Turn(s, cmp, v)) ==> !IsRed(sib))
  }

  /** What t becomes when the helpers move down. */
  ghost function Trail(g: Node?, t: Node): Node { if g != null then g else t }

  /** Decreases with every step down, also across a double rotation. */
  ghost function Remaining(c: Ctx, s: Tree, cmp: Order, v: Value): nat {
    if c.Step? && !c.red && IsRed(s) && IsRed(c.sib) then 2 * Height(Turn(s, cmp, v)) + 1 else 2 * Height(s)
  }

  /** The subtree once the node under the hole has been inserted or flipped, if need be. */
  ghost function Recoloured(s: Tree): Tree {
    if s.Branch? && IsRed(s.left) && IsRed(s.right) then Flipped(s) else s
  }

  /** Where the loop stands after the rotation at the grandparent. */
  ghost function ResumeCtx(c: Ctx, s: Tree): Ctx
    requires c.Step? && c.up.Step? && s.Branch?
  {
    if c.dir == c.up.dir then Down(c.up.up, Repaired(c, s), c.dir) else c.up.up
  }

  ghost function ResumeTree(c: Ctx, s: Tree): Tree
    requires c.Step? && c.up.Step? && s.Branch?
  {
    if c.dir == c.up.dir then s else Repaired(c, s)
  }

  lemma {:induction false} ResumedWhole(c: Ctx, s: Tree)
    requires Violation(c, s)
    ensures Whole(ResumeCtx(c, s), ResumeTree(c, s))
    ensures Nodes(ResumeTree(c, s)) + CNodes(ResumeCtx(c, s)) == Nodes(s) + CNodes(c)
  {
    RepairedApart(c, s);
    RepairedWhole(c, s);
    if c.dir == c.up.dir {
      DownWhole(c.up.up, Repaired(c, s), c.dir);
    }
  }

  lemma {:induction false} ResumedSearching(c: Ctx, s: Tree, cmp: Order, v: Value, all: seq<Value>)
    requires c.Step? && c.up.Step? && s.Branch? && Apart(c, s)
    requires Searching(c, s, cmp, v, all) && TotalOrder(cmp) && Sorted(cmp, all)
    ensures Searching(ResumeCtx(c, s), ResumeTree(c, s), cmp, v, all)
  {
    RepairedSearching(c, s, cmp, v, all);
    if c.dir == c.up.dir {
      LiftSearching(c, s, cmp, v, all);
      DownSearching(c.up.up, Repaired(c, s), cmp, v, all);
    }
  }

  /** After a double rotation the next turn leads to a child of the old q. */
  lemma {:induction false} DoubleTurn(c: Ctx, s: Tree, cmp: Order, v: Value, d: bool)
    requires c.Step? && c.up.Step? && s.Branch? && c.dir != c.up.dir && Path(c, cmp, v)
    ensures IsRed(Child(Repaired(c, s), d))
    ensures Turn(Child(Repaired(c, s), d), cmp, v) == Child(s, d)
  {
    assert Path(c.up, cmp, v);
  }

  /** One step down re-establishes the meaning of the helpers when nothing was rotated ... */
  lemma {:induction false} Stepped(c: Ctx, s: Tree, cmp: Order, v: Value, head: Node,
                t: Node, g: Node?, p: Node?, dir: bool, last: bool)
    requires Whole(c, s) && s.Branch? && Helpers(c, s, cmp, v, head, t, g, p, dir, last)
    requires !(CRed(c) && IsRed(Recoloured(s)))
    ensures var s1 := Recoloured(s); var d := cmp(s.value, v) < 0;
            && Whole(c, s1)
            && Helpers(Down(c, s1, d), Child(s1, d), cmp, v, head, Trail(g, t), p, s1.node, d, dir)
            && Remaining(Down(c, s1, d), Child(s1, d), cmp, v) < Remaining(c, s, cmp, v)
  {
    if IsRed(s.left) && IsRed(s.right) {
      FlippedKeeps(s);
    } else {
      assert Rb(s.left) && Rb(s.right);
    }
  }

  /** ... and when the flipped node was rotated up. */
  lemma {:induction false} SteppedAfterRotation(c: Ctx, s: Tree, cmp: Order, v: Value, head: Node,
                             t: Node, g: Node?, p: Node?, dir: bool, last: bool)
    requires Whole(c, s) && s.Branch? && Helpers(c, s, cmp, v, head, t, g, p, dir, last)
    requires c.Step? && c.up.Step? && c.red && IsRed(Recoloured(s)) && Path(c, cmp, v)
    ensures var s1 := Recoloured(s); var d := cmp(s.value, v) < 0;
            var c2, s2 := ResumeCtx(c, s1), ResumeTree(c, s1);
            && Helpers(Down(c2, s2, d), Child(s2, d), cmp, v, head, Trail(g, t), p, s1.node, d, dir)
            && Remaining(Down(c2, s2, d), Child(s2, d), cmp, v) < Remaining(c, s, cmp, v)
  {
    var s1 := Recoloured(s);
    FlippedKeeps(s);
    if c.dir != c.up.dir {
      DoubleTurn(c, s1, cmp, v, true);
      DoubleTurn(c, s1, cmp, v, false);
    }
  }

  method FlipColors(q: Node, ghost s: Tree)
    requires Rep(q, s) && Distinct(s) && IsRed(s.left) && IsRed(s.right)
    modifies q, s.left.node, s.right.node
    ensures Rep(q, Flipped(s))
  {
    assert Rep(q.link.left, s.left) && Rep(q.link.right, s.right);
    q.red := true;
    q.link.left.red := false;
    q.link.right.red := false;
  }

  ghost function Single(node: Node, v: Value): Tree { Branch(node, true, Leaf, v, Leaf) }

  /** The subtree after the visit inserted at a null link or flipped colours. */
  ghost function Touched(s: Tree, node: Node, v: Value): Tree {
    if s.Leaf? then Single(node, v) else Recoloured(s)
  }

  ghost function Contents(s: Tree, cmp: Order, all: seq<Value>, v: Value): seq<Value> {
    if s.Leaf? then With(cmp, all, v) else all
  }

  lemma {:induction false} TouchedWhole(c: Ctx, s: Tree, node: Node, v: Value)
    requires Whole(c, s) && node !in CNodes(c) + Nodes(s)
    ensures var s1 := Touched(s, node, v);
            && Apart(c, s1) && Rb(s1) && CRb(c, Bh(s1))
            && Nodes(s1) == Nodes(s) + if s.Leaf? then {node} else {}
  {
    if s.Branch? && IsRed(s.left) && IsRed(s.right) { FlippedKeeps(s); }
  }

  lemma {:induction false} TouchedSearching(c: Ctx, s: Tree, node: Node, cmp: Order, v: Value, all: seq<Value>)
    requires Searching(c, s, cmp, v, all) && TotalOrder(cmp) && Sorted(cmp, all)
    ensures Searching(c, Touched(s, node, v), cmp, v, Contents(s, cmp, all, v))
    ensures Sorted(cmp, Contents(s, cmp, all, v))
  {
    if s.Leaf? {
      var l, r := Before(c), After(c);
      assert all == l + r;
      WithSplits(cmp, l, r, v);
      SortedSplit(cmp, l, r, v);
      InSingle(node, v);
    } else if IsRed(s.left) && IsRed(s.right) {
      FlippedKeeps(s);
    }
  }

  lemma {:induction false} InSingle(node: Node, v: Value)
    ensures In(Single(node, v)) == [v]
  {
  }

  method Touch(p: Node?, q: Node?, dir: bool, node: Node, ghost root: Node?, ghost c: Ctx, ghost s: Tree)
    returns (q1: Node, inserted: bool)
    requires RepCtx(c, q, root) && Rep(q, s) && Apart(c, s)
    requires s.Leaf? ==> c.Step? && p == c.node && dir == c.dir
    requires node !in CNodes(c) && node.red && node.link == Links(null, null)
    modifies CNodes(c), Nodes(s)
    ensures inserted <==> s.Leaf?
    ensures q1 == Touched(s, node, node.value).node
    ensures RepCtx(c, q1, root) && Rep(q1, Touched(s, node, node.value))
  {
    if q == null {
      p.link := p.link.With(dir, node);
      q1, inserted := node, true;
    } else {
      q1, inserted := q, false;
      if NodeIsRed(q.link.left) && NodeIsRed(q.link.right) {
        CExist(c);
        FlipColors(q, s);
      }
    }
  }

  // Where the loop stands at the end of a visit: s1 is the touched subtree.

  ghost predicate MustRotate(c: Ctx, s1: Tree) {
    c.Step? && c.up.Step? && s1.Branch? && c.red && IsRed(s1)
  }

  ghost function EndCtx(c: Ctx, s1: Tree): Ctx {
    if MustRotate(c, s1) then ResumeCtx(c, s1) else c
  }

  ghost function EndTree(c: Ctx, s1: Tree): Tree {
    if MustRotate(c, s1) then ResumeTree(c, s1) else s1
  }

  /** A red violation only arises where the trailing helpers can be trusted. */
  lemma {:induction false} RotationReady(c: Ctx, s: Tree, node: Node, cmp: Order, v: Value, head: Node,
                      t: Node, g: Node?, p: Node?, dir: bool, last: bool)
    requires Whole(c, s) && node !in CNodes(c) + Nodes(s) && Helpers(c, s, cmp, v, head, t, g, p, dir, last)
    ensures var s1 := Touched(s, node, v);
            IsRed(s1) && CRed(c) ==>
              && MustRotate(c, s1) && Violation(c, s1)
              && p == c.node && g == c.up.node && last == c.up.dir && t == Holder(c.up.up, head)
              && g in CNodes(c) && t in CNodes(c) + {head}
  {
    TouchedWhole(c, s, node, v);
    if CRed(c) && c.up.Step? { assert CNodes(c.up.up) <= CNodes(c.up) <= CNodes(c); }
  }

  lemma {:induction false} VisitedWhole(c: Ctx, s: Tree, node: Node, cmp: Order, v: Value, head: Node,
                     t: Node, g: Node?, p: Node?, dir: bool, last: bool)
    requires Whole(c, s) && node !in CNodes(c) + Nodes(s) && Helpers(c, s, cmp, v, head, t, g, p, dir, last)
    ensures var s1 := Touched(s, node, v);
            && Whole(EndCtx(c, s1), EndTree(c, s1))
            && CNodes(EndCtx(c, s1)) + Nodes(EndTree(c, s1))
               == CNodes(c) + Nodes(s) + if s.Leaf? then {node} else {}
  {
    var s1 := Touched(s, node, v);
    TouchedWhole(c, s, node, v);
    RotationReady(c, s, node, cmp, v, head, t, g, p, dir, last);
    if MustRotate(c, s1) {
      ResumedWhole(c, s1);
    }
  }

  lemma {:induction false} VisitedSearching(c: Ctx, s: Tree, node: Node, cmp: Order, v: Value, all: seq<Value>)
    requires Whole(c, s) && node !in CNodes(c) + Nodes(s)
    requires Searching(c, s, cmp, v, all) && TotalOrder(cmp) && Sorted(cmp, all)
    ensures var s1 := Touched(s, node, v);
            Searching(EndCtx(c, s1), EndTree(c, s1), cmp, v, Contents(s, cmp, all, v))
  {
    var s1 := Touched(s, node, v);
    TouchedWhole(c, s, node, v);
    TouchedSearching(c, s, node, cmp, v, all);
    if MustRotate(c, s1) {
      ResumedSearching(c, s1, cmp, v, Contents(s, cmp, all, v));
    }
  }

  lemma {:induction false} VisitedHelpers(c: Ctx, s: Tree, node: Node, cmp: Order, v: Value, all: seq<Value>, head: Node,
                       t: Node, g: Node?, p: Node?, dir: bool, last: bool)
    requires Whole(c, s) && node !in CNodes(c) + Nodes(s) && Helpers(c, s, cmp, v, head, t, g, p, dir, last)
    requires Searching(c, s, cmp, v, all) && s.Branch?
    ensures var s1 := Touched(s, node, v);
            var c2, s2 := EndCtx(c, s1), EndTree(c, s1);
            var d := cmp(s.value, v) < 0;
            && s2.Branch?
            && Helpers(Down(c2, s2, d), Child(s2, d), cmp, v, head, Trail(g, t), p, s1.node, d, dir)
            && Remaining(Down(c2, s2, d), Child(s2, d), cmp, v) < Remaining(c, s, cmp, v)
            && s2.node == s.node && s2.value == s.value
  {
    RotationReady(c, s, node, cmp, v, head, t, g, p, dir, last);
    if CRed(c) && IsRed(Recoloured(s)) {
      SteppedAfterRotation(c, s, cmp, v, head, t, g, p, dir, last);
    } else {
      Stepped(c, s, cmp, v, head, t, g, p, dir, last);
    }
  }

  /** One visit: insert at a null link or flip colours, then cure a red violation. */
  method Visit(t: Node, g: Node?, p: Node?, q: Node?, dir: bool, last: bool, node: Node, cmp: Order,
               ghost head: Node, ghost c: Ctx, ghost s: Tree)
    returns (q1: Node, inserted: bool)
    requires Whole(c, s) && RepCtx(c, q, head.link.right) && Rep(q, s)
    requires Helpers(c, s, cmp, node.value, head, t, g, p, dir, last)
    requires head !in CNodes(c) + Nodes(s) + {node} && node !in CNodes(c) + Nodes(s)
    requires node.red && node.link == Links(null, null)
    modifies CNodes(c), Nodes(s), head, node
    ensures inserted <==> s.Leaf?
    ensures var s1 := Touched(s, node, old(node.value));
            && q1 == s1.node
            && RepCtx(EndCtx(c, s1), q1, head.link.right)
            && Rep(q1, EndTree(c, s1))
            && q1.value == s1.value
    ensures !inserted ==> unchanged(node)
  {
    ghost var s1 := Touched(s, node, node.value);
    q1, inserted := Touch(p, q, dir, node, head.link.right, c, s);
    TouchedWhole(c, s, node, node.value);
    RotationReady(c, s, node, cmp, node.value, head, t, g, p, dir, last);
    if NodeIsRed(q1) && NodeIsRed(p) {
      assert MustRotate(c, s1);
      Repair(t, g, p, q1, last, head, c, s1);
    }
  }

  /** The loop invariant, as far as it does not speak of the heap. */
  ghost predicate State(c: Ctx, s: Tree, cmp: Order, v: Value, all: seq<Value>, head: Node,
                        t: Node, g: Node?, p: Node?, dir: bool, last: bool) {
    && Whole(c, s) && Searching(c, s, cmp, v, all)
    && Helpers(c, s, cmp, v, head, t, g, p, dir, last)
  }

  /** A visit that does not end the loop, followed by the step down. */
  lemma {:induction false} Continues(c: Ctx, s: Tree, node: Node, cmp: Order, v: Value, all: seq<Value>, head: Node,
                  t: Node, g: Node?, p: Node?, dir: bool, last: bool)
    requires State(c, s, cmp, v, all, head, t, g, p, dir, last)
    requires node !in CNodes(c) + Nodes(s) && TotalOrder(cmp) && Sorted(cmp, all)
    requires s.Branch? && cmp(s.value, v) != 0
    ensures var s1 := Touched(s, node, v);
            var c2, s2 := EndCtx(c, s1), EndTree(c, s1);
            var d := cmp(s.value, v) < 0;
            && s2.Branch? && s2.value == s1.value == s.value && s2.node == s1.node
            && State(Down(c2, s2, d), Child(s2, d), cmp, v, all, head, Trail(g, t), p, s1.node, d, dir)
            && Remaining(Down(c2, s2, d), Child(s2, d), cmp, v) < Remaining(c, s, cmp, v)
            && CNodes(Down(c2, s2, d)) + Nodes(Child(s2, d)) == CNodes(c) + Nodes(s)
  {
    var s1 := Touched(s, node, v);
    var c2, s2 := EndCtx(c, s1), EndTree(c, s1);
    VisitedHelpers(c, s, node, cmp, v, all, head, t, g, p, dir, last);
    assert Whole(c2, s2) && CNodes(c2) + Nodes(s2) == CNodes(c) + Nodes(s) by {
      VisitedWhole(c, s, node, cmp, v, head, t, g, p, dir, last);
    }
    assert Searching(c2, s2, cmp, v, all) by {
      VisitedSearching(c, s, node, cmp, v, all);
    }
    DownBoth(c2, s2, cmp, v, all);
  }

  lemma {:induction false} DownBoth(c: Ctx, s: Tree, cmp: Order, v: Value, all: seq<Value>)
    requires Whole(c, s) && Searching(c, s, cmp, v, all) && s.Branch? && TotalOrder(cmp) && Sorted(cmp, all)
    requires cmp(s.value, v) != 0
    ensures var d := cmp(s.value, v) < 0;
            && Whole(Down(c, s, d), Child(s, d))
            && Searching(Down(c, s, d), Child(s, d), cmp, v, all)
            && CNodes(Down(c, s, d)) + Nodes(Child(s, d)) == CNodes(c) + Nodes(s)
  {
    DownSearching(c, s, cmp, v, all);
    DownWhole(c, s, cmp(s.value, v) < 0);
  }

  /** A visit that ends the loop: the path and the subtree together are the result. */
  lemma {:induction false} Stops(c: Ctx, s: Tree, node: Node, cmp: Order, v: Value, all: seq<Value>, head: Node,
              t: Node, g: Node?, p: Node?, dir: bool, last: bool)
    requires State(c, s, cmp, v, all, head, t, g, p, dir, last)
    requires node !in CNodes(c) + Nodes(s) && TotalOrder(cmp) && Sorted(cmp, all)
    requires s.Branch? ==> cmp(s.value, v) == 0
    ensures var s1 := Touched(s, node, v);
            var w := Plug(EndCtx(c, s1), EndTree(c, s1));
            && s1.value == (if s.Leaf? then v else s.value)
            && Distinct(w) && Rb(w)
            && In(w) == Contents(s, cmp, all, v)
            && Nodes(w) == CNodes(c) + Nodes(s) + if s.Leaf? then {node} else {}
    ensures s.Leaf? <==> !Holds(cmp, all, v)
  {
    var s1 := Touched(s, node, v);
    VisitedWhole(c, s, node, cmp, v, head, t, g, p, dir, last);
    VisitedSearching(c, s, node, cmp, v, all);
    Outcome(c, s, cmp, v, all);
    PlugNodes(EndCtx(c, s1), EndTree(c, s1));
    RbPlug(EndCtx(c, s1), EndTree(c, s1));
    InPlug(EndCtx(c, s1), EndTree(c, s1));
  }

  /** Insertion happens exactly when nothing equal was there. */
  lemma {:induction false} Outcome(c: Ctx, s: Tree, cmp: Order, v: Value, all: seq<Value>)
    requires Searching(c, s, cmp, v, all)
    requires s.Branch? ==> cmp(s.value, v) == 0
    ensures s.Leaf? <==> !Holds(cmp, all, v)
  {
    if s.Leaf? {
      assert all == Before(c) + After(c);
      WithSplits(cmp, Before(c), After(c), v);
    } else {
      Regroup(Before(c), In(s.left), s.value, In(s.right), After(c));
      assert all[|Before(c) + In(s.left)|] == s.value;
    }
  }

  /** The loop invariant with the heap: q is the node at the hole. */
  ghost predicate Standing(c: Ctx, s: Tree, cmp: Order, v: Value, all: seq<Value>, head: Node,
                           t: Node, g: Node?, p: Node?, q: Node?, dir: bool, last: bool)
    reads head, CNodes(c), Nodes(s)
  {
    && State(c, s, cmp, v, all, head, t, g, p, dir, last)
    && RepCtx(c, q, head.link.right) && Rep(q, s) && head !in CNodes(c) + Nodes(s)
  }

  /** The result w of the whole insertion below the false root, with n the nodes before. */
  ghost predicate Inserted(w: Tree, cmp: Order, v: Value, all: seq<Value>, node: Node, n: set<Node>, inserted: bool) {
    && Distinct(w) && Rb(w)
    && (inserted <==> !Holds(cmp, all, v))
    && In(w) == (if inserted then With(cmp, all, v) else all)
    && Nodes(w) == n + if inserted then {node} else {}
  }

  /** One round of the loop: a visit, and then either the end or the step down. */
  method Round(t: Node, g: Node?, p: Node?, q: Node?, dir: bool, last: bool, node: Node, cmp: Order,
               ghost head: Node, ghost c: Ctx, ghost s: Tree, ghost all: seq<Value>)
    returns (stop: bool, inserted: bool, t1: Node, g1: Node?, p1: Node, q1: Node?, dir1: bool, last1: bool,
             ghost c1: Ctx, ghost s1: Tree)
    requires Standing(c, s, cmp, node.value, all, head, t, g, p, q, dir, last)
    requires TotalOrder(cmp) && Sorted(cmp, all)
    requires head != node && node !in CNodes(c) + Nodes(s) && node.red && node.link == Links(null, null)
    modifies CNodes(c), Nodes(s), head, node
    ensures node.value == old(node.value)
    ensures stop ==> Rep(head.link.right, Plug(c1, s1))
    ensures stop ==> Inserted(Plug(c1, s1), cmp, node.value, all, node, CNodes(c) + Nodes(s), inserted)
    ensures !stop ==> unchanged(node) && CNodes(c1) + Nodes(s1) == CNodes(c) + Nodes(s)
    ensures !stop ==> Standing(c1, s1, cmp, node.value, all, head, t1, g1, p1, q1, dir1, last1)
    ensures !stop ==> Remaining(c1, s1, cmp, node.value) < Remaining(c, s, cmp, node.value)
  {
    ghost var v := node.value;
    ghost var touched := Touched(s, node, v);
    c1, s1 := EndCtx(c, touched), EndTree(c, touched);
    if s.Leaf? || cmp(s.value, v) == 0 {
      Stops(c, s, node, cmp, v, all, head, t, g, p, dir, last);
    } else {
      Continues(c, s, node, cmp, v, all, head, t, g, p, dir, last);
    }
    p1, inserted := Visit(t, g, p, q, dir, last, node, cmp, head, c, s);
    stop := cmp(p1.value, node.value) == 0;
    last1 := dir;
    dir1 := cmp(p1.value, node.value) < 0;
    t1 := if g != null then g else t;
    g1 := p;
    q1 := p1.link.At(dir1);
    if stop {
      RepPlug(c1, s1, p1, head.link.right);
    } else {
      RepDown(c1, s1, dir1, p1, head.link.right);
      c1, s1 := Down(c1, s1, dir1), Child(s1, dir1);
    }
  }

  /** The search loop, from the false root down. `all` is what the tree holds before. */
  method InsertLoop(root: Node, node: Node, cmp: Order, ghost shape: Tree, ghost all: seq<Value>)
    returns (newRoot: Node, inserted: bool, ghost newShape: Tree, ghost rounds: nat)
    requires TotalOrder(cmp) && Sorted(cmp, In(shape)) && all == In(shape)
    requires Rep(root, shape) && Distinct(shape) && Rb(shape) && !IsRed(shape)
    requires node !in Nodes(shape) && node.red && node.link == Links(null, null)
    modifies Nodes(shape), node
    ensures Rep(newRoot, newShape) && Distinct(newShape) && Rb(newShape)
    ensures node.value == old(node.value)
    ensures inserted <==> !Holds(cmp, all, node.value)
    ensures In(newShape) == if inserted then With(cmp, all, node.value) else all
    ensures Nodes(newShape) == Nodes(shape) + if inserted then {node} else {}
    ensures rounds <= 2 * Height(shape) + 1
  {
    Exist(shape);
    var head := new Node(node.value);
    head.red := false;
    head.link := head.link.With(true, root);
    var t: Node, g: Node?, p: Node?, q: Node? := head, null, null, root;
    var dir, last, stop := false, false, false;
    ghost var c, s := Top, shape;
    StandsAtRoot(shape, cmp, node.value, all, head, root);
    rounds := 0;
    while true
      invariant fresh(head) && head != node && unchanged(node)
      invariant node !in CNodes(c) + Nodes(s) && CNodes(c) + Nodes(s) == Nodes(shape)
      invariant Standing(c, s, cmp, node.value, all, head, t, g, p, q, dir, last)
      invariant rounds + Remaining(c, s, cmp, node.value) <= 2 * Height(shape)
      decreases Remaining(c, s, cmp, node.value)
    {
      stop, inserted, t, g, p, q, dir, last, c, s := Round(t, g, p, q, dir, last, node, cmp, head, c, s, all);
      rounds := rounds + 1;
      if stop { break; }
    }
    newRoot := head.link.right;
    newShape := Plug(c, s);
  }

  lemma {:induction false} StandsAtRoot(shape: Tree, cmp: Order, v: Value, all: seq<Value>, head: Node, root: Node)
    requires Rep(root, shape) && Distinct(shape) && Rb(shape) && !IsRed(shape) && all == In(shape)
    requires head !in Nodes(shape) && head.link.right == root
    ensures Standing(Top, shape, cmp, v, all, head, head, null, null, root, false, false)
  {
    assert [] + In(shape) + [] == In(shape);
  }

  lemma {:induction false} IntoEmpty(cmp: Order, node: Node)
    ensures var t := Single(node, node.value);
            && In(t) == With(cmp, In(Leaf), node.value) && !Holds(cmp, In(Leaf), node.value)
            && Nodes(t) == {node} && Distinct(t) && Rb(t)
  {
    InSingle(node, node.value);
    assert [] + [node.value] + [] == [node.value];
  }

  /** The insertion before the root is made black. */
  method InsertBelow(root: Node?, node: Node, cmp: Order, ghost shape: Tree)
    returns (newRoot: Node, inserted: bool, ghost newShape: Tree, ghost rounds: nat)
    requires Rep(root, shape) && ValidTree(shape, cmp)
    requires node !in Nodes(shape) && node.red && node.link == Links(null, null)
    modifies Nodes(shape), node
    ensures Rep(newRoot, newShape) && Distinct(newShape) && Rb(newShape)
    ensures node.value == old(node.value)
    ensures inserted <==> !Holds(cmp, In(shape), node.value)
    ensures In(newShape) == if inserted then With(cmp, In(shape), node.value) else In(shape)
    ensures Nodes(newShape) == Nodes(shape) + if inserted then {node} else {}
    ensures rounds <= 2 * Height(shape) + 1
  {
    if root == null {
      newRoot, inserted, rounds := node, true, 0;
      newShape := Single(node, node.value);
      IntoEmpty(cmp, node);
      assert shape == Leaf;
    } else {
      newRoot, inserted, newShape, rounds := InsertLoop(root, node, cmp, shape, In(shape));
    }
  }

  lemma {:induction false} StaysSorted(cmp: Order, all: seq<Value>, v: Value)
    requires TotalOrder(cmp) && Sorted(cmp, all)
    ensures Sorted(cmp, if Holds(cmp, all, v) then all else With(cmp, all, v))
  {
    if !Holds(cmp, all, v) { WithSorted(cmp, all, v); }
  }

  /** etcpal_rbtree_insert_node but for the count. */
  method Insert(root: Node?, node: Node, cmp: Order, ghost shape: Tree)
    returns (newRoot: Node, inserted: bool, ghost newShape: Tree, ghost rounds: nat)
    requires Rep(root, shape) && ValidTree(shape, cmp)
    requires node !in Nodes(shape) && node.red && node.link == Links(null, null)
    modifies Nodes(shape), node
    ensures Rep(newRoot, newShape) && ValidTree(newShape, cmp)
    ensures node.value == old(node.value)
    ensures inserted <==> !Holds(cmp, In(shape), node.value)
    ensures In(newShape) == if inserted then With(cmp, In(shape), node.value) else In(shape)
    ensures Nodes(newShape) == Nodes(shape) + if inserted then {node} else {}
    ensures rounds <= 2 * Height(shape) + 1
  {
    StaysSorted(cmp, In(shape), node.value);
    newRoot, inserted, newShape, rounds := InsertBelow(root, node, cmp, shape);
    Blacken(newRoot, newShape);
    newShape := Blackened(newShape);
  }
}
