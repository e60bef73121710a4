/** The loop of etcpal_rbtree_clear_with_cb: left links are rotated away until only a list is left. */
module RbClear {
  import opened RbContents
  import opened RbShape

  /** Nodes and values in order, as the callback gets to see them. */
  ghost function Items(t: Tree): seq<(Node, Value)> {
    if t.Leaf? then [] else Items(t.left) + [(t.node, t.value)] + Items(t.right)
  }

  /** The values come in the order of the tree ... */
  lemma {:induction false} ItemsValues(t: Tree)
    ensures |Items(t)| == |In(t)|
    ensures forall i :: 0 <= i < |Items(t)| ==> Items(t)[i].1 == In(t)[i]
  {
    if t.Branch? {
      ItemsValues(t.left);
      ItemsValues(t.right);
    }
  }

  ghost predicate Lists(s: seq<(Node, Value)>, n: Node) {
    exists i :: 0 <= i < |s| && s[i].0 == n
  }

  /** ... and every node of the tree is listed exactly once. */
  lemma {:induction false} ItemsNodes(t: Tree)
    requires Distinct(t)
    ensures forall n :: n in Nodes(t) <==> Lists(Items(t), n)
    ensures forall i, j :: 0 <= i < j < |Items(t)| ==> Items(t)[i].0 != Items(t)[j].0
  {
    if t.Branch? {
      ItemsNodes(t.left);
      ItemsNodes(t.right);
      ListsMiddle(Items(t.left), (t.node, t.value), Items(t.right));
      OnceInMiddle(Items(t.left), (t.node, t.value), Items(t.right));
    }
  }

  lemma {:induction false} OnceInMiddle(l: seq<(Node, Value)>, x: (Node, Value), r: seq<(Node, Value)>)
    requires !Lists(l, x.0) && !Lists(r, x.0) && forall n :: !(Lists(l, n) && Lists(r, n))
    requires forall i, j :: 0 <= i < j < |l| ==> l[i].0 != l[j].0
    requires forall i, j :: 0 <= i < j < |r| ==> r[i].0 != r[j].0
    ensures var s := l + [x] + r; forall i, j :: 0 <= i < j < |s| ==> s[i].0 != s[j].0
  {
    var s := l + [x] + r;
    forall i, j | 0 <= i < j < |s|
      ensures s[i].0 != s[j].0
    {
      if i < |l| { assert Lists(l, s[i].0); }
      if j > |l| { assert r[j - |l| - 1] == s[j] && Lists(r, s[j].0); }
    }
  }

  lemma {:induction false} ListsMiddle(l: seq<(Node, Value)>, x: (Node, Value), r: seq<(Node, Value)>)
    ensures forall n :: Lists(l + [x] + r, n) <==> Lists(l, n) || n == x.0 || Lists(r, n)
  {
    var s := l + [x] + r;
    assert s[|l|] == x;
    forall n | Lists(l, n)
      ensures Lists(s, n)
    {
      var i :| 0 <= i < |l| && l[i].0 == n;
      assert s[i].0 == n;
    }
    forall n | Lists(r, n)
      ensures Lists(s, n)
    {
      var i :| 0 <= i < |r| && r[i].0 == n;
      assert s[|l| + 1 + i].0 == n;
    }
  }

  /** The left child is lifted above its parent; colours are left alone. */
  ghost function Lifted(t: Tree): Tree
    requires t.Branch? && t.left.Branch?
  {
    var s := t.left;
    Branch(s.node, s.red, s.left, s.value, Branch(t.node, t.red, s.right, t.value, t.right))
  }

  lemma {:induction false} LiftedKeeps(t: Tree)
    requires t.Branch? && t.left.Branch? && Distinct(t)
    ensures Items(Lifted(t)) == Items(t) && Nodes(Lifted(t)) == Nodes(t) && Distinct(Lifted(t))
    ensures Size(Lifted(t)) == Size(t)
  {
    var s := t.left;
    assert Items(s.left) + [(s.node, s.value)] + (Items(s.right) + [(t.node, t.value)] + Items(t.right))
        == (Items(s.left) + [(s.node, s.value)] + Items(s.right)) + [(t.node, t.value)] + Items(t.right);
  }

  method LiftLeft(node: Node, save: Node, ghost t: Tree)
    requires Rep(node, t) && Distinct(t) && t.left.Branch? && save == t.left.node
    modifies node, save
    ensures Rep(save, Lifted(t))
  {
    assert Rep(save, t.left) && Distinct(t.left);
    node.link := node.link.With(false, save.link.right);
    save.link := save.link.With(true, node);
  }

  /** Works on any binary tree. The callback may do anything to the node it is given, so a node is
      not looked at again once it was passed on. */
  method ClearLoop(root: Node?, ghost shape: Tree) returns (calls: seq<(Node, Value)>)
    requires Rep(root, shape) && Distinct(shape)
    modifies Nodes(shape)
    ensures calls == Items(shape)
  {
    var node := root;
    ghost var t := shape;
    calls := [];
    while node != null
      invariant Rep(node, t) && Distinct(t) && Nodes(t) <= Nodes(shape)
      invariant calls + Items(t) == Items(shape)
      decreases Size(t), if t.Branch? then Size(t.left) else 0
    {
      var save;
      if node.link.left == null {
        save := node.link.right;
        KillFirst(calls, t);
        calls := calls + [(node, node.value)];
        Exist(t.right);
        modify {node};
        t := t.right;
      } else {
        save := node.link.left;
        LiftedKeeps(t);
        LiftLeft(node, save, t);
        t := Lifted(t);
      }
      node := save;
    }
  }

  /** Without a left child the root comes first. */
  lemma {:induction false} KillFirst(calls: seq<(Node, Value)>, t: Tree)
    requires t.Branch? && t.left.Leaf?
    ensures calls + Items(t) == (calls + [(t.node, t.value)]) + Items(t.right)
  {
    assert [] + [(t.node, t.value)] + Items(t.right) == [(t.node, t.value)] + Items(t.right);
  }
}
