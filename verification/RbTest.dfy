/** The validator etcpal_rbtree_test: what it accepts and what it overlooks. */
module RbTest {
  import opened RbContents
  import opened RbShape
  import opened RbRotate

  /** The rules the validator looks at. Values are only compared with their parent's. */
  ghost predicate Passes(t: Tree, cmp: Order) {
    match t
    case Leaf => true
    case Branch(_, red, l, v, r) =>
      && Passes(l, cmp) && Passes(r, cmp)
      && (red ==> !IsRed(l) && !IsRed(r))
      && Bh(l) == Bh(r)
      && (l.Branch? ==> cmp(l.value, v) < 0)
      && (r.Branch? ==> cmp(r.value, v) > 0)
  }

  /** 0 for a tree that breaks a rule, otherwise its black height counting the null link. */
  function Test(root: Node?, cmp: Order, ghost t: Tree): (h: nat)
    requires Rep(root, t)
    reads Nodes(t)
    ensures h == 0 <==> !Passes(t, cmp)
    ensures h != 0 ==> h == 1 + Bh(t)
    decreases t
  {
    if root == null then 1
    else
      var ln, rn := root.link.left, root.link.right;
      assert Rep(ln, t.left) && Rep(rn, t.right);
      assert (ln != null ==> ln in Nodes(t.left)) && (rn != null ==> rn in Nodes(t.right));
      if NodeIsRed(root) && (NodeIsRed(ln) || NodeIsRed(rn)) then 0
      else
        var lh := Test(ln, cmp, t.left);
        var rh := Test(rn, cmp, t.right);
        if (ln != null && cmp(ln.value, root.value) >= 0) || (rn != null && cmp(rn.value, root.value) <= 0) then 0
        else if lh != 0 && rh != 0 && lh != rh then 0
        else if lh != 0 && rh != 0 then (if NodeIsRed(root) then lh else lh + 1)
        else 0
  }

  // ---------- paths ----------

  /** The directions p lead from the root of t to a null link. */
  ghost predicate ToNull(t: Tree, p: seq<bool>) {
    if t.Leaf? then p == [] else p != [] && ToNull(Child(t, p[0]), p[1..])
  }

  ghost function Blacks(t: Tree, p: seq<bool>): nat
    requires ToNull(t, p)
  {
    if t.Leaf? then 0 else Blacks(Child(t, p[0]), p[1..]) + if t.red then 0 else 1
  }

  /** In a tree that passes, every path to a null link has as many black nodes as the result says. */
  lemma {:induction false} EveryPath(t: Tree, cmp: Order, p: seq<bool>)
    requires Passes(t, cmp) && ToNull(t, p)
    ensures Blacks(t, p) == Bh(t)
    decreases t
  {
    if t.Branch? { EveryPath(Child(t, p[0]), cmp, p[1..]); }
  }

  /** Two paths with different numbers of black nodes make the test fail. */
  lemma {:induction false} UnequalPathsFail(root: Node?, t: Tree, cmp: Order, p: seq<bool>, q: seq<bool>)
    requires Rep(root, t) && ToNull(t, p) && ToNull(t, q) && Blacks(t, p) != Blacks(t, q)
    ensures Test(root, cmp, t) == 0
  {
    if Passes(t, cmp) {
      EveryPath(t, cmp, p);
      EveryPath(t, cmp, q);
    }
  }

  // ---------- relation to validity ----------

  /** Every valid tree passes. */
  lemma {:induction false} ValidPasses(t: Tree, cmp: Order)
    requires Rb(t) && Sorted(cmp, In(t)) && TotalOrder(cmp)
    ensures Passes(t, cmp)
  {
    if t.Branch? {
      SortedParts(cmp, In(t.left), t.value, In(t.right));
      ValidPasses(t.left, cmp);
      ValidPasses(t.right, cmp);
      if t.left.Branch? { RootIn(t.left); }
      if t.right.Branch? { RootIn(t.right); }
    }
  }

  lemma {:induction false} PassesRb(t: Tree, cmp: Order)
    requires Passes(t, cmp)
    ensures Rb(t)
  {
    if t.Branch? {
      PassesRb(t.left, cmp);
      PassesRb(t.right, cmp);
    }
  }

  // ---------- when a tree that passes is a search tree ----------

  ghost function Leftmost(t: Tree): Value
    requires t.Branch?
  {
    if t.left.Leaf? then t.value else Leftmost(t.left)
  }

  ghost function Rightmost(t: Tree): Value
    requires t.Branch?
  {
    if t.right.Leaf? then t.value else Rightmost(t.right)
  }

  /** The comparisons that the validator leaves out: a node with the far ends of the inner spines of its
      children, where these are not the children themselves. */
  ghost predicate InnerOrdered(t: Tree, cmp: Order) {
    match t
    case Leaf => true
    case Branch(_, _, l, v, r) =>
      && InnerOrdered(l, cmp) && InnerOrdered(r, cmp)
      && (l.Branch? && l.right.Branch? ==> cmp(Rightmost(l), v) < 0)
      && (r.Branch? && r.left.Branch? ==> cmp(Leftmost(r), v) > 0)
  }

  lemma {:induction false} EndsIn(t: Tree)
    requires t.Branch?
    ensures In(t) != [] && In(t)[0] == Leftmost(t) && In(t)[|In(t)| - 1] == Rightmost(t)
  {
    if t.left.Branch? { EndsIn(t.left); }
    if t.right.Branch? { EndsIn(t.right); }
  }

  /** The parts in order, and the neighbours of x on their side of it. */
  ghost predicate Neighbours(cmp: Order, l: seq<Value>, x: Value, r: seq<Value>) {
    && Sorted(cmp, l) && Sorted(cmp, r)
    && (l != [] ==> cmp(l[|l| - 1], x) < 0) && (r != [] ==> cmp(r[0], x) > 0)
  }

  lemma {:induction false} SortedAround(cmp: Order, l: seq<Value>, x: Value, r: seq<Value>)
    requires TotalOrder(cmp)
    ensures Sorted(cmp, l + [x] + r) <==> Neighbours(cmp, l, x, r)
  {
    if Sorted(cmp, l + [x] + r) {
      SortedParts(cmp, l, x, r);
    } else if Neighbours(cmp, l, x, r) {
      AllBelowLast(cmp, l, x);
      AllAboveFirst(cmp, r, x);
      SortedJoin(cmp, l, x, r);
    }
  }

  lemma {:induction false} AllBelowLast(cmp: Order, l: seq<Value>, x: Value)
    requires TotalOrder(cmp) && Sorted(cmp, l) && (l != [] ==> cmp(l[|l| - 1], x) < 0)
    ensures AllBelow(cmp, l, x)
  {
    forall i | 0 <= i < |l|
      ensures cmp(l[i], x) < 0
    {
      if i < |l| - 1 { assert cmp(l[i], l[|l| - 1]) < 0; }
    }
  }

  lemma {:induction false} AllAboveFirst(cmp: Order, r: seq<Value>, x: Value)
    requires TotalOrder(cmp) && Sorted(cmp, r) && (r != [] ==> cmp(r[0], x) > 0)
    ensures AllAbove(cmp, r, x)
  {
    forall i | 0 <= i < |r|
      ensures cmp(r[i], x) > 0
    {
      if i > 0 { assert cmp(r[0], r[i]) < 0; }
    }
  }

  lemma {:induction false} SpineEnds(t: Tree, cmp: Order)
    requires t.Branch? && Passes(t, cmp)
    ensures Neighbours(cmp, In(t.left), t.value, In(t.right)) <==>
            && Sorted(cmp, In(t.left)) && Sorted(cmp, In(t.right))
            && (t.left.Branch? && t.left.right.Branch? ==> cmp(Rightmost(t.left), t.value) < 0)
            && (t.right.Branch? && t.right.left.Branch? ==> cmp(Leftmost(t.right), t.value) > 0)
  {
    if t.left.Branch? { EndsIn(t.left); }
    if t.right.Branch? { EndsIn(t.right); }
  }

  /** A tree that passes is a search tree if and only if the comparisons left out hold as well. */
  lemma {:induction false} SortedExactly(t: Tree, cmp: Order)
    requires Passes(t, cmp) && TotalOrder(cmp)
    ensures Sorted(cmp, In(t)) <==> InnerOrdered(t, cmp)
  {
    if t.Branch? {
      SortedExactly(t.left, cmp);
      SortedExactly(t.right, cmp);
      SortedAround(cmp, In(t.left), t.value, In(t.right));
      SpineEnds(t, cmp);
    }
  }

  /** Together with the comparisons left out, the validator accepts exactly the red-black search trees. */
  lemma {:induction false} ValidExactly(root: Node?, t: Tree, cmp: Order)
    requires Rep(root, t) && TotalOrder(cmp)
    ensures Rb(t) && Sorted(cmp, In(t)) <==> Test(root, cmp, t) != 0 && InnerOrdered(t, cmp)
  {
    if Rb(t) && Sorted(cmp, In(t)) { ValidPasses(t, cmp); }
    if Passes(t, cmp) {
      PassesRb(t, cmp);
      SortedExactly(t, cmp);
    }
  }

  /** Below w, a black left child x whose right child y is red, and a black right child z. */
  ghost function Bent(n: seq<Node>, w: Value, x: Value, y: Value, z: Value): Tree
    requires |n| == 4
  {
    Branch(n[0], false,
           Branch(n[1], false, Leaf, x, Branch(n[2], true, Leaf, y, Leaf)),
           w,
           Branch(n[3], false, Leaf, z, Leaf))
  }

  lemma {:induction false} Tip(t: Tree, cmp: Order)
    requires t.Branch? && t.left.Leaf? && t.right.Leaf?
    ensures Passes(t, cmp) && Bh(t) == if t.red then 0 else 1
    ensures In(t) == [t.value] && Nodes(t) == {t.node} && Distinct(t)
  {
  }

  lemma {:induction false} BentPasses(n: seq<Node>, cmp: Order, w: Value, x: Value, y: Value, z: Value)
    requires |n| == 4 && cmp(x, w) < 0 && cmp(y, x) > 0 && cmp(z, w) > 0
    ensures Passes(Bent(n, w, x, y, z), cmp) && Bh(Bent(n, w, x, y, z)) == 2
  {
    var a := Branch(n[2], true, Leaf, y, Leaf);
    var b := Branch(n[1], false, Leaf, x, a);
    var c := Branch(n[3], false, Leaf, z, Leaf);
    Tip(a, cmp);
    Tip(c, cmp);
    assert Passes(b, cmp) && Bh(b) == 1;
  }

  lemma {:induction false} BentIn(n: seq<Node>, cmp: Order, w: Value, x: Value, y: Value, z: Value)
    requires |n| == 4
    ensures In(Bent(n, w, x, y, z)) == [x, y, w, z]
    ensures (forall i, j :: 0 <= i < j < 4 ==> n[i] != n[j]) ==> Distinct(Bent(n, w, x, y, z))
  {
    var a := Branch(n[2], true, Leaf, y, Leaf);
    var b := Branch(n[1], false, Leaf, x, a);
    var c := Branch(n[3], false, Leaf, z, Leaf);
    Tip(a, cmp);
    Tip(c, cmp);
    assert In(b) == [x, y] && Nodes(b) == {n[1], n[2]};
    assert n[1] != n[2] ==> Distinct(b);
  }

  method BuildBent(ghost cmp: Order, w: Value, x: Value, y: Value, z: Value) returns (n: seq<Node>)
    ensures |n| == 4 && Rep(n[0], Bent(n, w, x, y, z)) && Distinct(Bent(n, w, x, y, z))
  {
    var a := new Node(y);
    var b := new Node(x);
    var c := new Node(z);
    var root := new Node(w);
    b.red, c.red, root.red := false, false, false;
    b.link := Links(null, a);
    root.link := Links(b, c);
    n := [root, b, a, c];
    ghost var t := Bent(n, w, x, y, z);
    assert Rep(a, t.left.right) && Rep(b, t.left) && Rep(c, t.right);
    BentIn(n, cmp, w, x, y, z);
  }

  /** The validator accepts a tree that is not a search tree: below 10, a left child 5 whose right child
      is 20. */
  method AcceptsUnsorted(cmp: Order, five: Value, ten: Value, twenty: Value, thirty: Value)
    returns (nodes: seq<Node>)
    requires TotalOrder(cmp) && cmp(five, ten) < 0 && cmp(ten, twenty) < 0 && cmp(twenty, thirty) < 0
    ensures |nodes| == 4
    ensures var t := Bent(nodes, ten, five, twenty, thirty);
            && Rep(nodes[0], t) && Distinct(t) && !IsRed(t)
            && Test(nodes[0], cmp, t) == 3
            && In(t) == [five, twenty, ten, thirty] && !Sorted(cmp, In(t))
  {
    nodes := BuildBent(cmp, ten, five, twenty, thirty);
    ghost var t := Bent(nodes, ten, five, twenty, thirty);
    assert cmp(twenty, five) > 0 && cmp(thirty, ten) > 0;
    BentPasses(nodes, cmp, ten, five, twenty, thirty);
    BentIn(nodes, cmp, ten, five, twenty, thirty);
    assert cmp(In(t)[1], In(t)[2]) >= 0;
  }
}
