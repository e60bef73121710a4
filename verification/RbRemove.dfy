/** The top-down removal loop of etcpal_rbtree_remove_with_cb. */
module RbRemove {
  import opened RbContents
  import opened RbShape
  import opened RbPath
  import opened RbRotate

  // ---------- where the searched value is ----------

  /** The nearest ancestor of the hole whose left subtree the hole is in. */
  ghost function Heir(c: Ctx): Node? {
    match c
    case Top => null
    case Step(n, _, _, d, _, up) => if d then Heir(up) else n
  }

  /** The search for v stands at the root of s; f is the node found so far. Once found, the value
      is the next one after everything that is left to visit. */
  ghost predicate Seeking(c: Ctx, s: Tree, cmp: Order, v: Value, all: seq<Value>, f: Node?) {
    && s.Branch?
    && Before(c) + In(s) + After(c) == all
    && AllBelow(cmp, Before(c), v)
    && (if f == null then cmp(s.value, v) != 0 && AllAbove(cmp, After(c), v)
        else if f == s.node then cmp(s.value, v) == 0 && AllAbove(cmp, After(c), v)
        else
          && f == Heir(c) && AllBelow(cmp, In(s), v)
          && After(c) != [] && cmp(After(c)[0], v) == 0 && AllAbove(cmp, After(c)[1..], v))
  }

  lemma {:induction false} SeekStart(shape: Tree, cmp: Order, v: Value)
    requires shape.Branch?
    ensures Seeking(Top, shape, cmp, v, In(shape), if cmp(shape.value, v) == 0 then shape.node else null)
  {
    assert [] + In(shape) + [] == In(shape);
  }

  lemma {:induction false} SeekDown(c: Ctx, s: Tree, cmp: Order, v: Value, all: seq<Value>, f: Node?)
    requires Apart(c, s) && Seeking(c, s, cmp, v, all, f) && TotalOrder(cmp) && Sorted(cmp, all)
    ensures var d := cmp(s.value, v) < 0;
            var s1 := Child(s, d);
            s1.Branch? ==> Seeking(Down(c, s, d), s1, cmp, v, all, if cmp(s1.value, v) == 0 then s1.node else f)
  {
    var d := cmp(s.value, v) < 0;
    if Child(s, d).Branch? {
      RootIn(Child(s, d));
      if f == null {
        SeekDownNone(c, s, cmp, v, all);
      } else if f == s.node {
        SeekDownFound(c, s, cmp, v, all);
      } else {
        SeekDownHeir(c, s, cmp, v, all, f);
      }
    }
  }

  lemma {:induction false} SeekDownNone(c: Ctx, s: Tree, cmp: Order, v: Value, all: seq<Value>)
    requires Seeking(c, s, cmp, v, all, null) && TotalOrder(cmp) && Sorted(cmp, all)
    ensures var d := cmp(s.value, v) < 0;
            var s1 := Child(s, d);
            s1.Branch? ==> Seeking(Down(c, s, d), s1, cmp, v, all, if cmp(s1.value, v) == 0 then s1.node else null)
  {
    StepSplits(c, s, cmp, v);
  }

  /** Below the found node everything on the left is below v. */
  lemma {:induction false} SeekDownFound(c: Ctx, s: Tree, cmp: Order, v: Value, all: seq<Value>)
    requires s.Branch? && s.left.Branch? && Apart(c, s) && TotalOrder(cmp) && Sorted(cmp, all)
    requires Seeking(c, s, cmp, v, all, s.node)
    ensures Seeking(Down(c, s, false), s.left, cmp, v, all, s.node)
  {
    DownSplits(c, s, false);
    SplitSorted(cmp, Before(c) + In(s.left), s.value, In(s.right) + After(c), v);
    assert After(Down(c, s, false))[1..] == In(s.right) + After(c);
    BelowSuffix(cmp, Before(c), In(s.left), v);
  }

  /** Further down the search keeps to the right of everything that is left. */
  lemma {:induction false} SeekDownHeir(c: Ctx, s: Tree, cmp: Order, v: Value, all: seq<Value>, f: Node?)
    requires Apart(c, s) && Seeking(c, s, cmp, v, all, f) && TotalOrder(cmp) && Sorted(cmp, all)
    requires f != null && f != s.node
    ensures cmp(s.value, v) < 0
    ensures s.right.Branch? ==> Seeking(Down(c, s, true), s.right, cmp, v, all, f)
  {
    RootIn(s);
    DownSplits(c, s, true);
    SplitSorted(cmp, Before(c) + In(s.left), s.value, In(s.right) + After(c), v);
    BelowSuffix(cmp, In(s.left) + [s.value], In(s.right), v);
    HeirIn(c);
  }

  lemma {:induction false} BelowSuffix(cmp: Order, a: seq<Value>, b: seq<Value>, v: Value)
    requires AllBelow(cmp, a + b, v)
    ensures AllBelow(cmp, b, v)
  {
    assert forall i :: 0 <= i < |b| ==> (a + b)[|a| + i] == b[i];
  }

  lemma {:induction false} HeirIn(c: Ctx)
    ensures Heir(c) != null ==> Heir(c) in CNodes(c)
    ensures Heir(c) == null <==> After(c) == []
  {
    if c.Step? && c.dir { HeirIn(c.up); }
  }

  // ---------- pushing a red node down ----------

  /** q or the next node on the way is red; only at the root may both be black. */
  ghost predicate RedAhead(c: Ctx, s: Tree, d: bool)
    requires s.Branch?
  {
    s.red || IsRed(Child(s, d)) || (c.Top? && !IsRed(s.left) && !IsRed(s.right))
  }

  /** What RedAhead leaves for the node after the step down. */
  ghost predicate RedNear(c: Ctx, s: Tree) {
    c.Top? || c.red || IsRed(s) || (c.up.Top? && !IsRed(c.sib))
  }

  /** Around the hole after q's red child opposite d was rotated above q. */
  ghost function TurnedCtx(c: Ctx, s: Tree, d: bool): Ctx
    requires s.Branch? && Child(s, !d).Branch?
  {
    Down(c, Rotated(s, d), d)
  }

  ghost function TurnedTree(s: Tree, d: bool): Tree
    requires s.Branch? && Child(s, !d).Branch?
  {
    Child(Rotated(s, d), d)
  }

  lemma {:induction false} TurnedWhole(c: Ctx, s: Tree, d: bool)
    requires Whole(c, s) && s.Branch? && !s.red && IsRed(Child(s, !d)) && !IsRed(Child(s, d))
    ensures Whole(TurnedCtx(c, s, d), TurnedTree(s, d))
    ensures CNodes(TurnedCtx(c, s, d)) + Nodes(TurnedTree(s, d)) == CNodes(c) + Nodes(s)
    ensures Child(TurnedTree(s, d), d) == Child(s, d)
  {
    RotatedKeeps(s, d);
    var y := Child(s, !d);
    assert Rb(y) && Bh(y) == Bh(y.left) == Bh(y.right);
    assert Rb(Child(Rotated(s, d), d));
    DownWhole(c, Rotated(s, d), d);
  }

  lemma {:induction false} TurnedSeeking(c: Ctx, s: Tree, d: bool, cmp: Order, v: Value, all: seq<Value>, f: Node?)
    requires Seeking(c, s, cmp, v, all, f) && Apart(c, s) && TotalOrder(cmp) && Sorted(cmp, all)
    requires d == (cmp(s.value, v) < 0) && Child(s, !d).Branch?
    ensures Seeking(TurnedCtx(c, s, d), TurnedTree(s, d), cmp, v, all, f)
  {
    RotatedKeeps(s, d);
    DownSplits(c, Rotated(s, d), d);
    if d { TurnedBelow(c, s, cmp, v); } else { TurnedAbove(c, s, cmp, v); }
  }

  lemma {:induction false} TurnedBelow(c: Ctx, s: Tree, cmp: Order, v: Value)
    requires s.Branch? && s.left.Branch? && TotalOrder(cmp) && Sorted(cmp, Before(c) + In(s) + After(c))
    requires cmp(s.value, v) < 0
    ensures AllBelow(cmp, Before(TurnedCtx(c, s, true)), v)
    ensures AllBelow(cmp, In(s), v) ==> AllBelow(cmp, In(TurnedTree(s, true)), v)
  {
    var y := s.left;
    assert AllBelow(cmp, Before(c) + In(s.left), v) by {
      DownSplits(c, s, true);
      SplitSorted(cmp, Before(c) + In(s.left), s.value, In(s.right) + After(c), v);
    }
    Shift(Before(c), In(y.left), y.value, In(y.right));
    BelowPrefix(cmp, Before(c) + In(y.left) + [y.value], In(y.right), v);
    Shift'(In(y.left), y.value, In(y.right), s.value, In(s.right));
    if AllBelow(cmp, In(s), v) {
      BelowSuffix(cmp, In(y.left) + [y.value], In(y.right) + [s.value] + In(s.right), v);
    }
  }

  lemma {:induction false} TurnedAbove(c: Ctx, s: Tree, cmp: Order, v: Value)
    requires s.Branch? && s.right.Branch? && TotalOrder(cmp) && Sorted(cmp, Before(c) + In(s) + After(c))
    requires cmp(s.value, v) >= 0
    ensures AllAbove(cmp, After(TurnedCtx(c, s, false)), v)
    ensures !AllBelow(cmp, In(s), v)
  {
    var y := s.right;
    assert AllAbove(cmp, In(s.right) + After(c), v) by {
      DownSplits(c, s, true);
      SplitSorted(cmp, Before(c) + In(s.left), s.value, In(s.right) + After(c), v);
    }
    Shift''(In(y.left), y.value, In(y.right), After(c));
    AboveSuffix(cmp, In(y.left), [y.value] + In(y.right) + After(c), v);
    assert In(s)[|In(s.left)|] == s.value;
  }

  lemma {:induction false} Shift(a: seq<Value>, b: seq<Value>, v: Value, c: seq<Value>)
    ensures a + (b + [v] + c) == (a + b + [v]) + c
  {
  }

  lemma {:induction false} Shift'(b: seq<Value>, v: Value, c: seq<Value>, w: Value, d: seq<Value>)
    ensures (b + [v] + c) + [w] + d == (b + [v]) + (c + [w] + d)
  {
  }

  lemma {:induction false} Shift''(b: seq<Value>, v: Value, c: seq<Value>, d: seq<Value>)
    ensures (b + [v] + c) + d == b + ([v] + c + d)
  {
  }

  /** Both children of p turn red and p black. */
  ghost function PaledCtx(c: Ctx): Ctx
    requires c.Step? && c.sib.Branch?
  {
    c.(red := false, sib := c.sib.(red := true))
  }

  ghost function Reddened(s: Tree): Tree
    requires s.Branch?
  {
    s.(red := true)
  }

  /** Around the hole after a rotation at p brought the sibling, or its inner child, above p. */
  ghost function PulledCtx(c: Ctx): Ctx
    requires c.Step? && c.sib.Branch? && (IsRed(Child(c.sib, c.dir)) || IsRed(Child(c.sib, !c.dir)))
  {
    var s := c.sib;
    var near, far := Child(s, c.dir), Child(s, !c.dir);
    if IsRed(near) then
      Step(c.node, false, c.value, c.dir, Child(near, c.dir),
           Step(near.node, true, near.value, c.dir,
                Make(s.node, false, s.value, c.dir, Child(near, !c.dir), far), c.up))
    else
      Step(c.node, false, c.value, c.dir, near,
           Step(s.node, true, s.value, c.dir, far.(red := false), c.up))
  }

  /** The node and its sibling are black and the node has no red child, so that a red has to come from
      the parent or from below the sibling. */
  ghost predicate Stuck(c: Ctx, s: Tree) {
    && Whole(c, s) && c.Step? && s.Branch? && c.sib.Branch?
    && !s.red && !IsRed(s.left) && !IsRed(s.right) && !c.sib.red
    && (c.red || c.up.Top?)
  }

  lemma {:induction false} PaledWhole(c: Ctx, s: Tree)
    requires Stuck(c, s) && !IsRed(c.sib.left) && !IsRed(c.sib.right)
    ensures Whole(PaledCtx(c), Reddened(s))
  {
  }

  lemma {:induction false} PulledWhole(c: Ctx, s: Tree)
    requires Stuck(c, s) && (IsRed(c.sib.left) || IsRed(c.sib.right))
    ensures Whole(PulledCtx(c), Reddened(s))
    ensures CNodes(PulledCtx(c)) == CNodes(c)
  {
    assert Bh(Reddened(s)) == Bh(s) - 1;
    PulledApart(c);
    PulledRb(c, Bh(s));
  }

  lemma {:induction false} PulledRb(c: Ctx, h: nat)
    requires c.Step? && c.sib.Branch? && !c.sib.red && (IsRed(c.sib.left) || IsRed(c.sib.right))
    requires CRb(c, h) && h > 0 && (c.red || c.up.Top?)
    ensures CRb(PulledCtx(c), h - 1)
  {
    var s, d, u := c.sib, c.dir, c.up;
    var near, far := Child(s, d), Child(s, !d);
    assert Rb(near) && Rb(far) && Bh(near) == Bh(far) == h - 1;
    assert CRb(u, h) && !CRed(u);
    if IsRed(near) {
      assert Bh(near.left) == Bh(near.right) == h - 1;
      var w := Make(s.node, false, s.value, d, Child(near, !d), far);
      assert Rb(w) && Bh(w) == h;
      assert CRb(PulledCtx(c).up, h);
    } else {
      assert Rb(far.(red := false)) && Bh(far.(red := false)) == h;
    }
  }

  lemma {:induction false} PulledApart(c: Ctx)
    requires CDistinct(c) && c.Step? && c.sib.Branch? && (IsRed(c.sib.left) || IsRed(c.sib.right))
    ensures CDistinct(PulledCtx(c)) && CNodes(PulledCtx(c)) == CNodes(c)
  {
    var near, far := Child(c.sib, c.dir), Child(c.sib, !c.dir);
    assert Distinct(near) && Distinct(far);
    assert CNodes(PulledCtx(c).up) <= CNodes(c);
  }

  /** Pulling changes nothing about what lies left and right of the hole. */
  lemma {:induction false} PulledSides(c: Ctx)
    requires c.Step? && c.sib.Branch? && (IsRed(Child(c.sib, c.dir)) || IsRed(Child(c.sib, !c.dir)))
    ensures Before(PulledCtx(c)) == Before(c) && After(PulledCtx(c)) == After(c)
    ensures Heir(PulledCtx(c)) == Heir(c)
  {
    var u, s := c.up, c.sib;
    var near, far := Child(s, c.dir), Child(s, !c.dir);
    if IsRed(near) && c.dir {
      Reassociate(Before(u), In(far), s.value, In(near.left), near.value, In(near.right));
    } else if IsRed(near) {
      assert In(c.sib) == (In(near.left) + [near.value] + In(near.right)) + [s.value] + In(far);
      Reassociate'([c.value], In(near.left), near.value, In(near.right), s.value, In(far), After(u));
    } else if c.dir {
      assert Before(u) + (In(far) + [s.value] + In(near)) == (Before(u) + In(far) + [s.value]) + In(near);
    } else {
      assert [c.value] + (In(near) + [s.value] + In(far)) + After(u)
          == [c.value] + In(near) + ([s.value] + In(far) + After(u));
    }
  }

  lemma {:induction false} Reassociate(a: seq<Value>, b: seq<Value>, v: Value, c: seq<Value>, w: Value, d: seq<Value>)
    ensures a + (b + [v] + (c + [w] + d)) == a + (b + [v] + c) + [w] + d
  {
    assert b + [v] + (c + [w] + d) == (b + [v] + c) + [w] + d;
  }

  lemma {:induction false} Reassociate'(a: seq<Value>, b: seq<Value>, v: Value, c: seq<Value>, w: Value,
                                        d: seq<Value>, e: seq<Value>)
    ensures a + ((b + [v] + c) + [w] + d) + e == a + b + ([v] + (c + [w] + d) + e)
  {
    assert (b + [v] + c) + [w] + d == b + ([v] + (c + [w] + d));
  }

  // ---------- the code ----------

  /** Rotates q's red child opposite dir above q. */
  method TurnUp(p: Node, q: Node, dir: bool, last: bool, ghost head: Node, ghost c: Ctx, ghost s: Tree)
    returns (r: Node)
    requires Apart(c, s) && s.Branch? && Child(s, !dir).Branch?
    requires RepCtx(c, q, head.link.right) && Rep(q, s) && head !in CNodes(c) + Nodes(s)
    requires p == Holder(c, head) && last == (p.link.right == q)
    modifies p, q, Child(s, !dir).node
    ensures r == Holder(TurnedCtx(c, s, dir), head)
    ensures RepCtx(TurnedCtx(c, s, dir), q, head.link.right)
    ensures Rep(q, TurnedTree(s, dir))
    ensures c.Top? ==> p.link.left == old(p.link.left)
  {
    CExist(c);
    RotatedKeeps(s, dir);
    assert Child(s, !dir).node in Nodes(s);
    r := Rotate(q, dir, s);
    Hang(p, last, q, r, head, c, Rotated(s, dir));
    RepDown(c, Rotated(s, dir), dir, r, head.link.right);
  }

  /** The tree at p after the rotation there. */
  ghost function PulledTree(c: Ctx, s: Tree): Tree
    requires c.Step? && c.sib.Branch? && (IsRed(Child(c.sib, c.dir)) || IsRed(Child(c.sib, !c.dir)))
  {
    if IsRed(Child(c.sib, c.dir)) then Rotated2(Above(c, s), c.dir) else Rotated(Above(c, s), c.dir)
  }

  /** "Ensure correct coloring": the top and q red, the children of the top black. */
  ghost function Coloured(t: Tree, d: bool): Tree
    requires t.Branch? && Child(t, !d).Branch? && Child(t, d).Branch? && Child(Child(t, d), d).Branch?
  {
    var p := Child(t, d);
    Make(t.node, true, t.value, d,
         Make(p.node, false, p.value, d, Reddened(Child(p, d)), Child(p, !d)),
         Child(t, !d).(red := false))
  }

  lemma {:induction false} PulledColoured(c: Ctx, s: Tree)
    requires c.Step? && c.sib.Branch? && (IsRed(Child(c.sib, c.dir)) || IsRed(Child(c.sib, !c.dir)))
    requires s.Branch? && Apart(c, s)
    ensures Distinct(PulledTree(c, s)) && Nodes(PulledTree(c, s)) == Nodes(Above(c, s))
    ensures Coloured(PulledTree(c, s), c.dir) == Above(PulledCtx(c).up, Above(PulledCtx(c), Reddened(s)))
    ensures PulledCtx(c).up.up == c.up
  {
    LiftApart(c, s);
    if IsRed(Child(c.sib, c.dir)) {
      Rotated2Keeps(Above(c, s), c.dir);
    } else {
      RotatedKeeps(Above(c, s), c.dir);
    }
  }

  lemma {:induction false} ReddenedKeeps(s: Tree)
    requires s.Branch?
    ensures Nodes(Reddened(s)) == Nodes(s) && (Distinct(s) ==> Distinct(Reddened(s)))
    ensures In(Reddened(s)) == In(s)
  {
  }

  method Colour(top: Node, q: Node, ghost d: bool, ghost t: Tree)
    requires t.Branch? && Child(t, !d).Branch? && Child(t, d).Branch? && Child(Child(t, d), d).Branch?
    requires Rep(top, t) && Distinct(t) && q == Child(Child(t, d), d).node
    modifies top, q, t.left.node, t.right.node
    ensures Rep(top, Coloured(t, d))
  {
    ghost var p := Child(t, d);
    ghost var p1 := Make(p.node, p.red, p.value, d, Reddened(Child(p, d)), Child(p, !d));
    ghost var t1 := Make(t.node, t.red, t.value, d, p1, Child(t, !d));
    assert Rep(p.node, p) && Distinct(p);
    ReddenedKeeps(Child(p, d));
    assert Distinct(p1) && Nodes(p1) == Nodes(p);
    Exist(Child(t, !d));
    assert Rep(top.link.At(!d), Child(t, !d));
    Redden(q, p.node, d, p);
    assert Rep(p.node, p1);
    assert Rep(top, t1) && Distinct(t1);
    ColourTop(top, t1);
  }

  method Redden(q: Node, ghost n: Node, ghost d: bool, ghost p: Tree)
    requires p.Branch? && Child(p, d).Branch? && Rep(n, p) && Distinct(p) && q == Child(p, d).node
    modifies q
    ensures Rep(n, Make(p.node, p.red, p.value, d, Reddened(Child(p, d)), Child(p, !d)))
  {
    assert Rep(q, Child(p, d));
    q.red := true;
    assert Rep(q, Reddened(Child(p, d)));
  }

  method ColourTop(top: Node, ghost t: Tree)
    requires t.Branch? && t.left.Branch? && t.right.Branch? && Rep(top, t) && Distinct(t)
    modifies top, t.left.node, t.right.node
    ensures Rep(top, t.(red := true, left := t.left.(red := false), right := t.right.(red := false)))
  {
    assert Rep(top.link.left, t.left) && Rep(top.link.right, t.right);
    top.red := true;
    top.link.left.red := false;
    top.link.right.red := false;
  }

  /** The rotation at p that brings its other child b, or b's child on p's side, above p. */
  method PullUp(g: Node, p: Node, b: Node, q: Node, last: bool, ghost head: Node, ghost c: Ctx, ghost s: Tree)
    requires c.Step? && s.Branch? && c.sib.Branch? && Apart(c, s) && head !in CNodes(c) + Nodes(s)
    requires IsRed(c.sib.left) || IsRed(c.sib.right)
    requires RepCtx(c, q, head.link.right) && Rep(q, s)
    requires p == c.node && b == c.sib.node && last == c.dir && g == Holder(c.up, head)
    modifies CNodes(c), Nodes(s), head
    ensures RepCtx(PulledCtx(c), q, head.link.right)
    ensures Rep(q, Reddened(s))
    ensures head.link.left == old(head.link.left)
  {
    var dir2 := g.link.right == p;
    PullTop(g, p, b, last, dir2, head, c, s);
    PulledColoured(c, s);
    LiftApart(c, s);
    var top := g.link.At(dir2);
    ColourAt(top, q, head.link.right, c.up, last, PulledTree(c, s));
    PulledRep(c, s, top, head.link.right);
  }

  method ColourAt(top: Node, q: Node, ghost root: Node?, ghost u: Ctx, ghost d: bool, ghost t: Tree)
    requires t.Branch? && Child(t, !d).Branch? && Child(t, d).Branch? && Child(Child(t, d), d).Branch?
    requires Rep(top, t) && Distinct(t) && q == Child(Child(t, d), d).node
    requires RepCtx(u, top, root) && Nodes(t) !! CNodes(u)
    modifies Nodes(t)
    ensures Rep(top, Coloured(t, d)) && RepCtx(u, top, root)
  {
    CExist(u);
    assert q in Nodes(Child(t, d));
    Colour(top, q, d, t);
  }

  /** The recoloured tree at the top, seen from the hole at q. */
  lemma {:induction false} PulledRep(c: Ctx, s: Tree, top: Node, root: Node?)
    requires c.Step? && s.Branch? && c.sib.Branch? && Apart(c, s)
    requires IsRed(c.sib.left) || IsRed(c.sib.right)
    requires RepCtx(c.up, top, root) && Rep(top, Coloured(PulledTree(c, s), c.dir))
    ensures RepCtx(PulledCtx(c), s.node, root) && Rep(s.node, Reddened(s))
  {
    PulledColoured(c, s);
    RepUnder(PulledCtx(c).up, Above(PulledCtx(c), Reddened(s)), top, root);
    RepUnder(PulledCtx(c), Reddened(s), top.link.At(c.dir), root);
  }

  /** The tree at p and the rest above it are apart, and the rotation stays within the former. */
  lemma {:induction false} PullReady(c: Ctx, s: Tree, head: Node)
    requires c.Step? && s.Branch? && c.sib.Branch? && Apart(c, s) && head !in CNodes(c) + Nodes(s)
    requires IsRed(c.sib.left) || IsRed(c.sib.right)
    requires RepCtx(c, s.node, head.link.right) && Rep(s.node, s)
    ensures RepCtx(c.up, c.node, head.link.right) && Rep(c.node, Above(c, s))
    ensures CDistinct(c.up) && Distinct(Above(c, s)) && Nodes(Above(c, s)) !! CNodes(c.up)
    ensures c.node in Nodes(Above(c, s)) && head !in Nodes(Above(c, s)) + CNodes(c.up)
    ensures Holder(c.up, head) in CNodes(c.up) + {head}
    ensures Nodes(PulledTree(c, s)) == Nodes(Above(c, s))
    ensures forall x :: x in CNodes(c.up) ==> allocated(x)
  {
    PulledColoured(c, s);
    LiftApart(c, s);
    CExist(c.up);
  }

  method PullTop(g: Node, p: Node, b: Node, last: bool, dir2: bool, ghost head: Node, ghost c: Ctx, ghost s: Tree)
    requires c.Step? && s.Branch? && c.sib.Branch? && Apart(c, s) && head !in CNodes(c) + Nodes(s)
    requires IsRed(c.sib.left) || IsRed(c.sib.right)
    requires RepCtx(c, s.node, head.link.right) && Rep(s.node, s)
    requires p == c.node && b == c.sib.node && last == c.dir && g == Holder(c.up, head)
    requires dir2 == (g.link.right == p)
    modifies Nodes(Above(c, s)), g
    ensures RepCtx(c.up, PulledTree(c, s).node, head.link.right)
    ensures Rep(PulledTree(c, s).node, PulledTree(c, s))
    ensures g.link.At(dir2) == PulledTree(c, s).node
    ensures head.link.left == old(head.link.left)
  {
    PullReady(c, s, head);
    var r := RotatePulled(p, b, last, c, s);
    assert RepCtx(c.up, p, head.link.right);
    Hang(g, dir2, p, r, head, c.up, PulledTree(c, s));
  }

  method RotatePulled(p: Node, b: Node, last: bool, ghost c: Ctx, ghost s: Tree) returns (r: Node)
    requires c.Step? && s.Branch? && c.sib.Branch? && Distinct(Above(c, s))
    requires IsRed(c.sib.left) || IsRed(c.sib.right)
    requires Rep(p, Above(c, s)) && b == c.sib.node && last == c.dir
    modifies Nodes(Above(c, s))
    ensures r == PulledTree(c, s).node && Rep(r, PulledTree(c, s))
  {
    assert Child(Above(c, s), !last) == c.sib && Rep(b, c.sib);
    assert Rep(b.link.At(last), Child(c.sib, last)) && Rep(b.link.At(!last), Child(c.sib, !last));
    if NodeIsRed(b.link.At(last)) {
      r := Rotate2(p, last, Above(c, s));
    } else {
      r := Rotate(p, last, Above(c, s));
    }
  }

  /** "Color flip" at p. */
  method Pale(p: Node, b: Node, q: Node, ghost root: Node?, ghost c: Ctx, ghost s: Tree)
    requires c.Step? && s.Branch? && c.sib.Branch? && Apart(c, s)
    requires RepCtx(c, q, root) && Rep(q, s) && p == c.node && b == c.sib.node
    modifies p, b, q
    ensures RepCtx(PaledCtx(c), q, root) && Rep(q, Reddened(s))
  {
    assert Rep(b, c.sib);
    p.red := false;
    b.red := true;
    q.red := true;
    assert Rep(b, c.sib.(red := true));
  }

  // ---------- one push, seen from above ----------

  ghost predicate NoRedBelow(s: Tree) {
    s.Branch? ==> !IsRed(s.left) && !IsRed(s.right)
  }

  datatype Move = Stay | Turn | Flip | Pull

  /** What the loop body does at (c, s) when the search goes on in direction d. */
  ghost function Choose(c: Ctx, s: Tree, d: bool): Move
    requires s.Branch?
  {
    if s.red || IsRed(Child(s, d)) then Stay
    else if IsRed(Child(s, !d)) then Turn
    else if c.Top? || c.sib.Leaf? then Stay
    else if NoRedBelow(c.sib) then Flip
    else Pull
  }

  ghost function PushedCtx(c: Ctx, s: Tree, d: bool): Ctx
    requires s.Branch?
  {
    match Choose(c, s, d)
    case Stay => c
    case Turn => TurnedCtx(c, s, d)
    case Flip => PaledCtx(c)
    case Pull => PulledCtx(c)
  }

  ghost function PushedTree(c: Ctx, s: Tree, d: bool): Tree
    requires s.Branch?
  {
    match Choose(c, s, d)
    case Stay => s
    case Turn => TurnedTree(s, d)
    case Flip => Reddened(s)
    case Pull => Reddened(s)
  }

  /** A push keeps the tree valid and makes q or its successor red. */
  lemma {:induction false} PushedWhole(c: Ctx, s: Tree, d: bool)
    requires Whole(c, s) && s.Branch? && RedNear(c, s)
    ensures var c1, s1 := PushedCtx(c, s, d), PushedTree(c, s, d);
            && Whole(c1, s1) && s1.Branch? && RedAhead(c1, s1, d)
            && s1.node == s.node && s1.value == s.value && Child(s1, d) == Child(s, d)
            && CNodes(c1) + Nodes(s1) == CNodes(c) + Nodes(s)
  {
    match Choose(c, s, d)
    case Stay =>
      if c.Step? && !s.red && !IsRed(Child(s, d)) { SiblingExists(c, s); }
    case Turn => TurnedWhole(c, s, d);
    case Flip => SiblingExists(c, s); PaledWhole(c, s); ReddenedKeeps(s);
    case Pull => SiblingExists(c, s); PulledWhole(c, s); ReddenedKeeps(s);
  }

  /** A black node without red child and without red near it has a black sibling. */
  lemma {:induction false} SiblingExists(c: Ctx, s: Tree)
    requires Whole(c, s) && s.Branch? && RedNear(c, s) && c.Step?
    requires !s.red && !IsRed(s.left) && !IsRed(s.right)
    ensures c.sib.Branch? && Stuck(c, s)
  {
  }

  lemma {:induction false} PushedSeeking(c: Ctx, s: Tree, d: bool, cmp: Order, v: Value, all: seq<Value>, f: Node?)
    requires Whole(c, s) && RedNear(c, s) && Seeking(c, s, cmp, v, all, f) && TotalOrder(cmp) && Sorted(cmp, all)
    requires d == (cmp(s.value, v) < 0)
    ensures Seeking(PushedCtx(c, s, d), PushedTree(c, s, d), cmp, v, all, f)
  {
    match Choose(c, s, d)
    case Stay =>
    case Turn => TurnedSeeking(c, s, d, cmp, v, all, f);
    case Flip => ReddenedKeeps(s); PaledSides(c);
    case Pull => ReddenedKeeps(s); PulledSides(c);
  }

  lemma {:induction false} PaledSides(c: Ctx)
    requires c.Step? && c.sib.Branch?
    ensures Before(PaledCtx(c)) == Before(c) && After(PaledCtx(c)) == After(c) && Heir(PaledCtx(c)) == Heir(c)
  {
    ReddenedKeeps(c.sib);
  }

  method PushSibling(g: Node?, p: Node, b: Node, q: Node, last: bool, ghost head: Node, ghost c: Ctx, ghost s: Tree)
    requires Stuck(c, s) && head !in CNodes(c) + Nodes(s)
    requires RepCtx(c, q, head.link.right) && Rep(q, s)
    requires p == c.node && b == c.sib.node && last == c.dir && g == Holder(c.up, head)
    modifies CNodes(c), Nodes(s), head
    ensures RepCtx(if NoRedBelow(c.sib) then PaledCtx(c) else PulledCtx(c), q, head.link.right)
    ensures Rep(q, Reddened(s))
    ensures head.link.left == old(head.link.left)
  {
    assert Rep(b, c.sib);
    assert Rep(b.link.left, c.sib.left) && Rep(b.link.right, c.sib.right);
    assert NodeIsRed(b.link.left) == IsRed(c.sib.left) && NodeIsRed(b.link.right) == IsRed(c.sib.right);
    if !NodeIsRed(b.link.At(!last)) && !NodeIsRed(b.link.At(last)) {
      Pale(p, b, q, head.link.right, c, s);
    } else {
      PullUp(g, p, b, q, last, head, c, s);
    }
  }

  /** "Push the red node down with rotations and color flips". */
  method Push(g: Node?, p: Node, q: Node, dir: bool, last: bool, ghost head: Node, ghost c: Ctx, ghost s: Tree)
    returns (p1: Node)
    requires Whole(c, s) && s.Branch? && RedNear(c, s)
    requires RepCtx(c, q, head.link.right) && Rep(q, s) && head !in CNodes(c) + Nodes(s)
    requires head.link.left == null
    requires p == Holder(c, head) && last == (if c.Step? then c.dir else true)
    requires c.Step? ==> g == Holder(c.up, head)
    modifies CNodes(c), Nodes(s), head
    ensures RepCtx(PushedCtx(c, s, dir), q, head.link.right)
    ensures Rep(q, PushedTree(c, s, dir))
    ensures p1 == Holder(PushedCtx(c, s, dir), head)
    ensures head.link.left == null
  {
    p1 := p;
    assert Rep(q.link.At(dir), Child(s, dir)) && Rep(q.link.At(!dir), Child(s, !dir));
    if !NodeIsRed(q) && !NodeIsRed(q.link.At(dir)) {
      if NodeIsRed(q.link.At(!dir)) {
        assert Choose(c, s, dir) == Turn;
        p1 := TurnUp(p, q, dir, last, head, c, s);
      } else {
        var b := p.link.At(!last);
        if b != null {
          assert c.Step?;
          SiblingExists(c, s);
          PushSibling(g, p, b, q, last, head, c, s);
        }
      }
    }
  }

  // ---------- the end of the loop ----------

  /** The loop ends at a leaf that is red or the only node. */
  lemma {:induction false} EndsAtLeaf(c: Ctx, s: Tree, d: bool)
    requires Whole(c, s) && s.Branch? && RedAhead(c, s, d) && Child(s, d).Leaf?
    ensures s.left.Leaf? && s.right.Leaf? && CRb(c, 0)
  {
    assert Rb(s.left) && Rb(s.right);
  }

  /** c with the value at the heir of the hole replaced. */
  ghost function Revalued(c: Ctx, w: Value): Ctx {
    match c
    case Top => c
    case Step(n, r, x, d, sib, up) => if d then Step(n, r, x, d, sib, Revalued(up, w)) else c.(value := w)
  }

  lemma {:induction false} RevaluedKeeps(c: Ctx, w: Value)
    ensures CNodes(Revalued(c, w)) == CNodes(c)
    ensures CDistinct(c) ==> CDistinct(Revalued(c, w))
  {
    if c.Step? && c.dir { RevaluedKeeps(c.up, w); }
  }

  lemma {:induction false} RevaluedRb(c: Ctx, w: Value, h: nat)
    requires CRb(c, h)
    ensures CRb(Revalued(c, w), h) && CRed(Revalued(c, w)) == CRed(c)
  {
    if c.Step? && c.dir { RevaluedRb(c.up, w, if c.red then h else h + 1); }
  }

  lemma {:induction false} RevaluedSides(c: Ctx, w: Value)
    requires Heir(c) != null
    ensures Before(Revalued(c, w)) == Before(c)
    ensures After(c) != [] && After(Revalued(c, w)) == [w] + After(c)[1..]
  {
    if c.dir {
      RevaluedSides(c.up, w);
    } else {
      DropHead(c.value, In(c.sib), After(c.up));
      assert [w] + In(c.sib) + After(c.up) == [w] + (In(c.sib) + After(c.up));
    }
  }

  lemma {:induction false} DropHead(x: Value, a: seq<Value>, b: seq<Value>)
    ensures ([x] + a + b)[1..] == a + b
  {
  }

  // The path below the heir, and the rest of it from the heir up.

  ghost function LowerNodes(c: Ctx): set<Node> {
    if c.Step? && c.dir then {c.node} + Nodes(c.sib) + LowerNodes(c.up) else {}
  }

  ghost predicate RepLower(c: Ctx, hole: Node?)
    reads LowerNodes(c)
    decreases c
  {
    c.Step? && c.dir ==>
      && c.node.red == c.red && c.node.value == c.value && c.node.link.right == hole
      && Rep(c.node.link.left, c.sib) && RepLower(c.up, c.node)
  }

  ghost function LowerTop(c: Ctx, hole: Node?): Node?
    decreases c
  {
    if c.Step? && c.dir then LowerTop(c.up, c.node) else hole
  }

  ghost function HeirCtx(c: Ctx): Ctx {
    if c.Step? && c.dir then HeirCtx(c.up) else c
  }

  lemma {:induction false} SplitAtHeir(c: Ctx, hole: Node?, root: Node?)
    ensures RepCtx(c, hole, root) <==> RepLower(c, hole) && RepCtx(HeirCtx(c), LowerTop(c, hole), root)
    ensures Heir(c) == null <==> HeirCtx(c).Top?
    ensures HeirCtx(c).Step? ==> HeirCtx(c).node == Heir(c) && !HeirCtx(c).dir
    ensures HeirCtx(c).Step? ==> After(c) != [] && After(c)[0] == HeirCtx(c).value
    ensures CDistinct(c) ==> CDistinct(HeirCtx(c)) && LowerNodes(c) !! CNodes(HeirCtx(c))
    ensures LowerNodes(c) + CNodes(HeirCtx(c)) == CNodes(c)
    decreases c
  {
    if c.Step? && c.dir { SplitAtHeir(c.up, c.node, root); }
  }

  lemma {:induction false} SplitRevalued(c: Ctx, w: Value, hole: Node?)
    ensures LowerNodes(Revalued(c, w)) == LowerNodes(c) && LowerTop(Revalued(c, w), hole) == LowerTop(c, hole)
    ensures RepLower(Revalued(c, w), hole) <==> RepLower(c, hole)
    ensures HeirCtx(c).Step? ==> HeirCtx(Revalued(c, w)) == HeirCtx(c).(value := w)
    decreases c
  {
    if c.Step? && c.dir { SplitRevalued(c.up, w, c.node); }
  }

  /** Writing the value of the found node, which is the one at the hole or its heir. */
  method SetValue(f: Node, w: Value, ghost c: Ctx, ghost hole: Node?, ghost root: Node?)
    requires CDistinct(c) && RepCtx(c, hole, root) && hole !in CNodes(c)
    requires f == Heir(c) || f == hole
    modifies f
    ensures f.value == w && f.red == old(f.red) && f.link == old(f.link)
    ensures RepCtx(if f == hole then c else Revalued(c, w), hole, root)
  {
    HeirIn(c);
    if f != hole {
      SplitAtHeir(c, hole, root);
      SplitRevalued(c, w, hole);
    }
    f.value := w;
    if f != hole {
      SplitAtHeir(Revalued(c, w), hole, root);
      SplitRevalued(c, w, hole);
    }
  }

  /** The contents once the value at q has taken the place of the one to be removed. */
  lemma {:induction false} RemovedContents(c: Ctx, s: Tree, cmp: Order, v: Value, all: seq<Value>, f: Node?)
    requires Seeking(c, s, cmp, v, all, f) && s.left.Leaf? && s.right.Leaf? && Holds(cmp, all, v)
    ensures f != null && Rank(cmp, all, v) < |all|
    ensures f == s.node ==>
      && Before(c) + After(c) == Without(cmp, all, v)
      && all[Rank(cmp, all, v)] == s.value
    ensures f != s.node ==>
      && Heir(c) == f && After(c) != []
      && Before(c) + ([s.value] + After(c)[1..]) == Without(cmp, all, v)
      && all[Rank(cmp, all, v)] == After(c)[0]
  {
    InLeafy(s);
    var l, x, r := Before(c), s.value, After(c);
    assert all == l + [x] + r;
    if f == s.node {
      WithoutSplits(cmp, l, x, r, v);
      AtMiddle(l, x, r);
    } else if f != null {
      assert [x][0] == x && x == In(s)[0];
      BelowSnoc(cmp, l, x, v);
      Uncons(l, x, r);
      WithoutSplits(cmp, l + [x], r[0], r[1..], v);
      AtMiddle(l + [x], r[0], r[1..]);
    } else {
      NotHeld(cmp, l, x, r, v);
    }
  }

  lemma {:induction false} InLeafy(s: Tree)
    requires s.Branch? && s.left.Leaf? && s.right.Leaf?
    ensures In(s) == [s.value]
  {
  }

  lemma {:induction false} AtMiddle(l: seq<Value>, x: Value, r: seq<Value>)
    ensures |l| < |l + [x] + r| && (l + [x] + r)[|l|] == x
  {
  }

  lemma {:induction false} Uncons(l: seq<Value>, x: Value, r: seq<Value>)
    requires r != []
    ensures l + [x] + r == (l + [x]) + [r[0]] + r[1..]
    ensures l + ([x] + r[1..]) == (l + [x]) + r[1..]
  {
    assert r == [r[0]] + r[1..];
  }

  lemma {:induction false} NotHeld(cmp: Order, l: seq<Value>, x: Value, r: seq<Value>, v: Value)
    requires AllBelow(cmp, l, v) && cmp(x, v) != 0 && AllAbove(cmp, r, v)
    ensures !Holds(cmp, l + [x] + r, v)
  {
  }

  /** The tree that is left when the value of q has moved to f and q is gone. */
  ghost function Remaining(c: Ctx, s: Tree, f: Node?): Tree
    requires s.Branch?
  {
    Plug(if f == s.node then c else Revalued(c, s.value), Leaf)
  }

  lemma {:induction false} RemainingValid(c: Ctx, s: Tree, f: Node?, d: bool)
    requires Whole(c, s) && s.Branch? && RedAhead(c, s, d) && Child(s, d).Leaf?
    ensures var w := Remaining(c, s, f);
            Distinct(w) && Rb(w) && Nodes(w) == CNodes(c) + Nodes(s) - {s.node}
    ensures s.left.Leaf? && s.right.Leaf?
  {
    EndsAtLeaf(c, s, d);
    RevaluedKeeps(c, s.value);
    RevaluedRb(c, s.value, 0);
    var c1 := if f == s.node then c else Revalued(c, s.value);
    PlugNodes(c1, Leaf);
    RbPlug(c1, Leaf);
  }

  lemma {:induction false} RemainingContents(c: Ctx, s: Tree, cmp: Order, v: Value, all: seq<Value>, f: Node?)
    requires Seeking(c, s, cmp, v, all, f) && s.left.Leaf? && s.right.Leaf? && Holds(cmp, all, v)
    ensures In(Remaining(c, s, f)) == Without(cmp, all, v)
  {
    RemovedContents(c, s, cmp, v, all, f);
    if f == s.node {
      InBare(c);
    } else {
      HeirIn(c);
      RevaluedSides(c, s.value);
      InBare(Revalued(c, s.value));
    }
  }

  lemma {:induction false} InBare(c: Ctx)
    ensures In(Plug(c, Leaf)) == Before(c) + After(c)
  {
    InPlug(c, Leaf);
    assert Before(c) + [] + After(c) == Before(c) + After(c);
  }

  // ---------- the loop invariant ----------

  /** The loop invariant behind the false root, as far as it does not speak of the heap. */
  ghost predicate Hunting(c: Ctx, s: Tree, cmp: Order, v: Value, all: seq<Value>, f: Node?, dir: bool) {
    && Whole(c, s) && Seeking(c, s, cmp, v, all, f)
    && dir == (cmp(s.value, v) < 0) && RedAhead(c, s, dir)
  }

  lemma {:induction false} Hunted(c: Ctx, s: Tree, cmp: Order, v: Value, all: seq<Value>, f: Node?, dir: bool)
    requires Whole(c, s) && RedNear(c, s) && Seeking(c, s, cmp, v, all, f) && TotalOrder(cmp) && Sorted(cmp, all)
    requires dir == (cmp(s.value, v) < 0)
    ensures var c1, s1 := PushedCtx(c, s, dir), PushedTree(c, s, dir);
            && Hunting(c1, s1, cmp, v, all, f, dir)
            && Child(s1, dir) == Child(s, dir) && CNodes(c1) + Nodes(s1) == CNodes(c) + Nodes(s)
  {
    PushedWhole(c, s, dir);
    PushedSeeking(c, s, dir, cmp, v, all, f);
  }

  /** The whole loop invariant; at the false root the search has not begun. */
  ghost predicate Standing(atHead: bool, c: Ctx, s: Tree, cmp: Order, v: Value, all: seq<Value>,
                           head: Node, p: Node?, q: Node, f: Node?, dir: bool)
    reads head, CNodes(c), Nodes(s)
  {
    if atHead then
      q == head && f == null && dir && c == Top && Rep(head.link.right, s) && Distinct(s) && Rb(s) && In(s) == all
    else
      RepCtx(c, q, head.link.right) && Rep(q, s) && p == Holder(c, head) && Hunting(c, s, cmp, v, all, f, dir)
  }

  ghost function NextCtx(atHead: bool, c: Ctx, s: Tree, dir: bool): Ctx
    requires atHead || s.Branch?
  {
    if atHead then c else Down(c, s, dir)
  }

  ghost function NextTree(atHead: bool, s: Tree, dir: bool): Tree
    requires atHead || s.Branch?
  {
    if atHead then s else Child(s, dir)
  }

  /** The step down from where the loop stands. */
  lemma {:induction false} Descends(atHead: bool, c: Ctx, s: Tree, cmp: Order, v: Value, all: seq<Value>,
                 head: Node, p: Node?, q: Node, f: Node?, dir: bool)
    requires Standing(atHead, c, s, cmp, v, all, head, p, q, f, dir) && q.link.At(dir) != null
    requires TotalOrder(cmp) && Sorted(cmp, all)
    ensures var c1, s1 := NextCtx(atHead, c, s, dir), NextTree(atHead, s, dir);
            && s1.Branch? && Whole(c1, s1) && RedNear(c1, s1)
            && RepCtx(c1, q.link.At(dir), head.link.right) && Rep(q.link.At(dir), s1) && q == Holder(c1, head)
            && Seeking(c1, s1, cmp, v, all, if cmp(s1.value, v) == 0 then s1.node else f)
            && CNodes(c1) + Nodes(s1) == CNodes(c) + Nodes(s)
            && dir == (if c1.Step? then c1.dir else true)
            && (c1.Step? ==> p == Holder(c1.up, head))
  {
    if atHead {
      SeekStart(s, cmp, v);
    } else {
      DownWhole(c, s, dir);
      RepDown(c, s, dir, q, head.link.right);
      SeekDown(c, s, cmp, v, all, f);
    }
  }

  lemma {:induction false} StopsAtNull(atHead: bool, c: Ctx, s: Tree, cmp: Order, v: Value, all: seq<Value>,
                    head: Node, p: Node?, q: Node, f: Node?, dir: bool)
    requires Standing(atHead, c, s, cmp, v, all, head, p, q, f, dir) && q.link.At(dir) == null && s.Branch?
    ensures !atHead && Child(s, dir).Leaf?
  {
    if !atHead { RepDown(c, s, dir, q, head.link.right); }
  }

  /** "Replace and remove the saved node". */
  method Unlink(f: Node, p: Node, q: Node, ghost head: Node, ghost c: Ctx, ghost s: Tree)
    requires Apart(c, s) && s.Branch? && s.left.Leaf? && s.right.Leaf?
    requires RepCtx(c, q, head.link.right) && Rep(q, s) && head !in CNodes(c) + Nodes(s)
    requires p == Holder(c, head) && (f == q || f == Heir(c))
    modifies f, p, q
    ensures Rep(head.link.right, Remaining(c, s, f))
    ensures q.value == old(f.value)
    ensures q.link == Links(null, null)
  {
    ghost var c1 := if f == s.node then c else Revalued(c, s.value);
    RevaluedKeeps(c, s.value);
    HeirIn(c);
    var tmp := f.value;
    SetValue(f, q.value, c, q, head.link.right);
    q.value := tmp;
    assert RepCtx(c1, q, head.link.right);
    Hang(p, p.link.right == q, q, q.link.At(q.link.left == null), head, c1, Leaf);
    RepPlug(c1, Leaf, null, head.link.right);
  }

  method TakeOut(f: Node?, p: Node?, q: Node, head: Node, ghost c: Ctx, ghost s: Tree,
                 ghost cmp: Order, ghost v: Value, ghost all: seq<Value>, ghost dir: bool)
    returns (newRoot: Node?)
    requires Hunting(c, s, cmp, v, all, f, dir) && Child(s, dir).Leaf? && Holds(cmp, all, v)
    requires RepCtx(c, q, head.link.right) && Rep(q, s) && head !in CNodes(c) + Nodes(s)
    requires p == Holder(c, head)
    modifies CNodes(c), Nodes(s), head
    ensures var w := Remaining(c, s, f);
            && Rep(newRoot, w) && Distinct(w) && Rb(w) && In(w) == Without(cmp, all, v)
            && Nodes(w) == CNodes(c) + Nodes(s) - {q}
    ensures q in Nodes(s) && q.link == Links(null, null)
    ensures Rank(cmp, all, v) < |all| && q.value == all[Rank(cmp, all, v)]
  {
    RemainingValid(c, s, f, dir);
    RemainingContents(c, s, cmp, v, all, f);
    FoundValue(c, s, cmp, v, all, f, q, head.link.right);
    Unlink(f, p, q, head, c, s);
    newRoot := head.link.right;
  }

  /** f is the node holding the value to be removed. */
  lemma {:induction false} FoundValue(c: Ctx, s: Tree, cmp: Order, v: Value, all: seq<Value>,
                                      f: Node?, q: Node, root: Node?)
    requires Seeking(c, s, cmp, v, all, f) && s.left.Leaf? && s.right.Leaf? && Holds(cmp, all, v)
    requires RepCtx(c, q, root) && Rep(q, s) && Apart(c, s)
    ensures f != null && (f == q || (f == Heir(c) && f in CNodes(c)))
    ensures Rank(cmp, all, v) < |all| && f.value == all[Rank(cmp, all, v)]
  {
    RemovedContents(c, s, cmp, v, all, f);
    HeirIn(c);
    SplitAtHeir(c, q, root);
  }

  lemma {:induction false} ChildIsLower(s: Tree, d: bool)
    requires s.Branch?
    ensures Height(Child(s, d)) < Height(s)
  {
  }

  /** One round of the loop: the step down and the push. */
  method Round(p: Node?, q: Node, f: Node?, dir: bool, v: Value, cmp: Order,
               ghost atHead: bool, ghost head: Node, ghost c: Ctx, ghost s: Tree, ghost all: seq<Value>)
    returns (p1: Node, q1: Node, f1: Node?, dir1: bool, ghost c1: Ctx, ghost s1: Tree)
    requires Standing(atHead, c, s, cmp, v, all, head, p, q, f, dir) && q.link.At(dir) != null
    requires TotalOrder(cmp) && Sorted(cmp, all) && head !in CNodes(c) + Nodes(s) && head.link.left == null
    modifies CNodes(c), Nodes(s), head
    ensures Standing(false, c1, s1, cmp, v, all, head, p1, q1, f1, dir1) && head.link.left == null
    ensures CNodes(c1) + Nodes(s1) == CNodes(c) + Nodes(s)
    ensures Height(Child(s1, dir1)) < Height(NextTree(atHead, s, dir))
  {
    Descends(atHead, c, s, cmp, v, all, head, p, q, f, dir);
    c1, s1 := NextCtx(atHead, c, s, dir), NextTree(atHead, s, dir);
    var last := dir;
    var g := p;
    q1 := q.link.At(dir);
    dir1 := cmp(q1.value, v) < 0;
    f1 := if cmp(q1.value, v) == 0 then q1 else f;
    Hunted(c1, s1, cmp, v, all, f1, dir1);
    ChildIsLower(s1, dir1);
    p1 := Push(g, q, q1, dir1, last, head, c1, s1);
    c1, s1 := PushedCtx(c1, s1, dir1), PushedTree(c1, s1, dir1);
  }

  /** Removes the value that compares equal to v. The node returned is no longer in the tree and
      holds the removed value. */
  method RemoveLoop(root: Node, v: Value, cmp: Order, ghost shape: Tree, ghost all: seq<Value>)
    returns (newRoot: Node?, removed: Node, ghost newShape: Tree, ghost rounds: nat)
    requires TotalOrder(cmp) && Sorted(cmp, In(shape)) && all == In(shape) && Holds(cmp, all, v)
    requires Rep(root, shape) && Distinct(shape) && Rb(shape)
    modifies Nodes(shape)
    ensures Rep(newRoot, newShape) && Distinct(newShape) && Rb(newShape)
    ensures In(newShape) == Without(cmp, all, v)
    ensures removed in Nodes(shape) && Nodes(newShape) == Nodes(shape) - {removed}
    ensures Rank(cmp, all, v) < |all| && removed.value == all[Rank(cmp, all, v)]
    ensures removed.link == Links(null, null)
    ensures rounds <= Height(shape)
  {
    Exist(shape);
    var head := new Node(v);
    head.red := false;
    head.link := head.link.With(true, root);
    var q: Node, p: Node?, f: Node? := head, null, null;
    var dir := true;
    ghost var c, s, atHead := Top, shape, true;
    rounds := 0;
    while q.link.At(dir) != null
      invariant fresh(head) && head !in Nodes(shape) && head.link.left == null
      invariant CNodes(c) + Nodes(s) == Nodes(shape)
      invariant Standing(atHead, c, s, cmp, v, all, head, p, q, f, dir)
      invariant s.Branch?
      invariant rounds + Height(NextTree(atHead, s, dir)) <= Height(shape)
      decreases Height(NextTree(atHead, s, dir))
    {
      p, q, f, dir, c, s := Round(p, q, f, dir, v, cmp, atHead, head, c, s, all);
      atHead := false;
      rounds := rounds + 1;
    }
    StopsAtNull(atHead, c, s, cmp, v, all, head, p, q, f, dir);
    newRoot := TakeOut(f, p, q, head, c, s, cmp, v, all, dir);
    removed := q;
    newShape := Remaining(c, s, f);
  }

  lemma {:induction false} RestSorted(cmp: Order, all: seq<Value>, v: Value)
    requires TotalOrder(cmp) && Sorted(cmp, all) && Holds(cmp, all, v)
    ensures Sorted(cmp, Without(cmp, all, v))
  {
    WithoutSorted(cmp, all, v);
  }

  /** "Make the root black" unless the tree is empty. */
  method BlackenRoot(root: Node?, ghost t: Tree)
    requires Rep(root, t) && Distinct(t) && Rb(t)
    modifies if root != null then {root} else {}
    ensures var w := if t.Branch? then Blackened(t) else t;
            Rep(root, w) && Distinct(w) && Rb(w) && !IsRed(w) && In(w) == In(t) && Nodes(w) == Nodes(t)
    ensures root != null ==> root.value == old(root.value)
  {
    if root != null { Blacken(root, t); }
  }

  /** etcpal_rbtree_remove_with_cb for a value that is there, but for the count. */
  method Remove(root: Node, v: Value, cmp: Order, ghost shape: Tree)
    returns (newRoot: Node?, removed: Node, ghost newShape: Tree, ghost rounds: nat)
    requires Rep(root, shape) && ValidTree(shape, cmp) && Holds(cmp, In(shape), v)
    modifies Nodes(shape)
    ensures Rep(newRoot, newShape) && ValidTree(newShape, cmp)
    ensures In(newShape) == Without(cmp, In(shape), v)
    ensures removed in Nodes(shape) && Nodes(newShape) == Nodes(shape) - {removed}
    ensures Rank(cmp, In(shape), v) < |In(shape)| && removed.value == In(shape)[Rank(cmp, In(shape), v)]
    ensures removed.link == Links(null, null)
    ensures rounds <= Height(shape)
  {
    RestSorted(cmp, In(shape), v);
    newRoot, removed, newShape, rounds := RemoveLoop(root, v, cmp, shape, In(shape));
    BlackenRoot(newRoot, newShape);
    newShape := if newShape.Branch? then Blackened(newShape) else newShape;
  }
}
