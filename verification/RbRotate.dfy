/** rb_node_rotate and rb_node_rotate2. */
module RbRotate {
  import opened RbShape

  predicate NodeIsRed(n: Node?)
    reads n
  {
    n != null && n.red
  }

  /** Single rotation: the child opposite `dir` comes up black, the old top goes down red. */
  ghost function Rotated(t: Tree, dir: bool): Tree
    requires t.Branch? && Child(t, !dir).Branch?
  {
    var y := Child(t, !dir);
    Make(y.node, false, y.value, dir,
         Make(t.node, true, t.value, dir, Child(t, dir), Child(y, dir)), Child(y, !dir))
  }

  /** Double rotation: the child opposite `dir` is rotated the other way first. */
  ghost function Rotated2(t: Tree, dir: bool): Tree
    requires t.Branch? && Child(t, !dir).Branch? && Child(Child(t, !dir), dir).Branch?
  {
    Rotated(Make(t.node, t.red, t.value, dir, Child(t, dir), Rotated(Child(t, !dir), !dir)), dir)
  }

  lemma {:induction false} RotatedKeeps(t: Tree, dir: bool)
    requires t.Branch? && Child(t, !dir).Branch? && Distinct(t)
    ensures In(Rotated(t, dir)) == In(t)
    ensures Nodes(Rotated(t, dir)) == Nodes(t) && Distinct(Rotated(t, dir))
  {
    var y := Child(t, !dir);
    if dir {
      assert In(y.left) + [y.value] + (In(y.right) + [t.value] + In(t.right))
          == (In(y.left) + [y.value] + In(y.right)) + [t.value] + In(t.right);
    } else {
      assert (In(t.left) + [t.value] + In(y.left)) + [y.value] + In(y.right)
          == In(t.left) + [t.value] + (In(y.left) + [y.value] + In(y.right));
    }
  }

  lemma {:induction false} Rotated2Keeps(t: Tree, dir: bool)
    requires t.Branch? && Child(t, !dir).Branch? && Child(Child(t, !dir), dir).Branch? && Distinct(t)
    ensures In(Rotated2(t, dir)) == In(t)
    ensures Nodes(Rotated2(t, dir)) == Nodes(t) && Distinct(Rotated2(t, dir))
  {
    RotatedKeeps(Child(t, !dir), !dir);
    var u := Make(t.node, t.red, t.value, dir, Child(t, dir), Rotated(Child(t, !dir), !dir));
    assert In(u) == In(t) && Nodes(u) == Nodes(t) && Distinct(u);
    RotatedKeeps(u, dir);
  }

  method Rotate(self: Node, dir: bool, ghost t: Tree) returns (result: Node)
    requires Rep(self, t) && Distinct(t) && Child(t, !dir).Branch?
    modifies self, Child(t, !dir).node
    ensures result == Child(t, !dir).node
    ensures Rep(result, Rotated(t, dir))
  {
    ghost var y := Child(t, !dir);
    assert Distinct(y);
    result := self.link.At(!dir);
    assert Rep(result, y);
    self.link := self.link.With(!dir, result.link.At(dir));
    result.link := result.link.With(dir, self);
    self.red := true;
    result.red := false;
  }

  method Rotate2(self: Node, dir: bool, ghost t: Tree) returns (result: Node)
    requires Rep(self, t) && Distinct(t)
    requires Child(t, !dir).Branch? && Child(Child(t, !dir), dir).Branch?
    modifies self, Child(t, !dir).node, Child(Child(t, !dir), dir).node
    ensures result == Child(Child(t, !dir), dir).node
    ensures Rep(result, Rotated2(t, dir))
  {
    ghost var y := Child(t, !dir);
    RotatedKeeps(y, !dir);
    Exist(Child(t, dir));
    var r := Rotate(self.link.At(!dir), !dir, y);
    assert Rep(self.link.At(dir), Child(t, dir));
    self.link := self.link.With(!dir, r);
    assert Rep(self.link.At(!dir), Rotated(y, !dir));
    ghost var u := Make(t.node, t.red, t.value, dir, Child(t, dir), Rotated(y, !dir));
    assert Rep(self, u);
    result := Rotate(self, dir, u);
  }
}
