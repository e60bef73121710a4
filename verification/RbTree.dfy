/** The red-black tree and its iterators, as callers see them. */
module RbTree {
  import opened Options
  import opened RbContents
  import opened RbShape
  import opened RbPath
  import opened RbWalk
  import RbInsert
  import RbRemove
  import RbClear

  /** The error codes the tree functions can return. */
  datatype Result = Ok | Exists | NotFound | NoMem

  class RbTree {
    var root: Node?
    var size: nat
    const cmp: Order
    ghost var shape: Tree

    /** The heap is a red-black search tree with a black root, and the count is not too small. */
    ghost predicate Valid()
      reads this, Nodes(shape)
    {
      Rep(root, shape) && ValidTree(shape, cmp) && size >= |Contents()|
    }

    /** The values in ascending order. */
    ghost function Contents(): seq<Value>
      reads this
    {
      In(shape)
    }

    ghost predicate Counted()
      reads this
    {
      size == |Contents()|
    }

    constructor (cmp: Order)
      requires TotalOrder(cmp)
      ensures Valid() && Contents() == [] && size == 0 && this.cmp == cmp && shape == Leaf
    {
      root, size, shape := null, 0, Leaf;
      this.cmp := cmp;
    }

    /** Inserts an initialised node. The count goes up in any case, also when the value exists. */
    method InsertNode(node: Node) returns (result: Result, ghost rounds: nat)
      requires Valid() && node !in Nodes(shape) && node.red && node.link == Links(null, null)
      modifies this, Nodes(shape), node
      ensures Valid()
      ensures node.value == old(node.value)
      ensures result == if Holds(cmp, old(Contents()), node.value) then Exists else Ok
      ensures Contents() == if result.Ok? then With(cmp, old(Contents()), node.value) else old(Contents())
      ensures Nodes(shape) == old(Nodes(shape)) + if result.Ok? then {node} else {}
      ensures size == old(size) + 1
      ensures old(Counted()) ==> (Counted() <==> !Holds(cmp, old(Contents()), node.value))
      ensures rounds <= 2 * Height(old(shape)) + 1
    {
      Lengths(cmp, Contents(), node.value);
      var inserted;
      root, inserted, shape, rounds := RbInsert.Insert(root, node, cmp, shape);
      result := if inserted then Ok else Exists;
      size := size + 1;
    }

    /** The stored value that compares equal to v, if there is one. */
    method Find(v: Value) returns (r: Option<Value>, ghost rounds: nat)
      requires Valid() && Height(shape) <= MAX_HEIGHT
      ensures r.Some? <==> Holds(cmp, Contents(), v)
      ensures r.Some? ==> Rank(cmp, Contents(), v) < |Contents()| && r.value == Contents()[Rank(cmp, Contents(), v)]
      ensures rounds <= Height(shape)
    {
      Exist(shape);
      var iter := new RbIter();
      var c;
      c, rounds := iter.BinarySearch(this, v);
      if iter.node != null { FoundAt(iter.place.c, iter.place.s, cmp, v, Contents()); }
      if c == 0 && iter.node != null {
        r := Some(iter.node.value);
      } else {
        r := None;
      }
    }

    /** Inserts a value; `canAlloc` says whether the node allocator succeeds. */
    method Insert(v: Value, canAlloc: bool) returns (result: Result, ghost rounds: nat)
      requires Valid() && Height(shape) <= MAX_HEIGHT
      modifies this, Nodes(shape)
      ensures Valid()
      ensures size == old(size) + (if result.Ok? then 1 else 0) && Counted() == old(Counted())
      ensures result ==
        if Holds(cmp, old(Contents()), v) then Exists else if canAlloc then Ok else NoMem
      ensures Contents() == if result.Ok? then With(cmp, old(Contents()), v) else old(Contents())
      ensures !result.Ok? ==> unchanged(this)
      ensures old(Nodes(shape)) <= Nodes(shape) && fresh(Nodes(shape) - old(Nodes(shape)))
      ensures |Nodes(shape) - old(Nodes(shape))| == if result.Ok? then 1 else 0
      ensures rounds <= 3 * Height(old(shape)) + 1
    {
      Exist(shape);
      var found;
      found, rounds := Find(v);
      if found.Some? { return Exists, rounds; }
      if !canAlloc { return NoMem, rounds; }
      var node := new Node(v);
      ghost var more;
      result, more := InsertNode(node);
      rounds := rounds + more;
      assert Nodes(shape) - old(Nodes(shape)) == {node};
    }

    /** Removes the value equal to v and hands its node, no longer linked, to the callback. */
    method RemoveWithCb(v: Value) returns (result: Result, removed: Node?, ghost rounds: nat)
      requires Valid() && Height(shape) <= MAX_HEIGHT
      modifies this, Nodes(shape)
      ensures Valid()
      ensures size == old(size) - (if result.Ok? then 1 else 0) && Counted() == old(Counted())
      ensures result == if Holds(cmp, old(Contents()), v) then Ok else NotFound
      ensures result.Ok? ==>
        && Contents() == Without(cmp, old(Contents()), v)
        && removed != null && removed in old(Nodes(shape)) && Nodes(shape) == old(Nodes(shape)) - {removed}
        && Rank(cmp, old(Contents()), v) < |old(Contents())|
        && removed.value == old(Contents())[Rank(cmp, old(Contents()), v)]
        && removed.link == Links(null, null)
      ensures result.NotFound? ==> removed == null && unchanged(this)
      ensures rounds <= 2 * Height(old(shape))
    {
      removed := null;
      if root == null { return NotFound, null, 0; }
      Exist(shape);
      var found;
      found, rounds := Find(v);
      if found.None? { return NotFound, null, rounds; }
      ghost var more;
      removed, more := Detach(v);
      rounds := rounds + more;
      result := Ok;
    }

    /** Everything behind the checks of RemoveWithCb. */
    method Detach(v: Value) returns (removed: Node, ghost rounds: nat)
      requires Valid() && root != null && Holds(cmp, Contents(), v)
      modifies this, Nodes(shape)
      ensures Valid() && size == old(size) - 1
      ensures Contents() == Without(cmp, old(Contents()), v) && |Contents()| == |old(Contents())| - 1
      ensures removed in old(Nodes(shape)) && Nodes(shape) == old(Nodes(shape)) - {removed}
      ensures Rank(cmp, old(Contents()), v) < |old(Contents())|
      ensures removed.value == old(Contents())[Rank(cmp, old(Contents()), v)]
      ensures removed.link == Links(null, null)
      ensures rounds <= Height(old(shape))
    {
      Lengths(cmp, Contents(), v);
      root, removed, shape, rounds := RbRemove.Remove(root, v, cmp, shape);
      size := size - 1;
    }

    /** Empties the tree, passing every node with its value to the callback. */
    method ClearWithCb() returns (calls: seq<(Node, Value)>)
      requires Valid()
      modifies this, Nodes(shape)
      ensures Valid() && Contents() == [] && size == 0
      ensures calls == RbClear.Items(old(shape))
    {
      calls := RbClear.ClearLoop(root, shape);
      root, size, shape := null, 0, Leaf;
    }
  }

  /** An iterator: a node and the stack of its ancestors. */
  class RbIter {
    var tree: RbTree?
    var node: Node?
    var path: array<Node?>
    var top: nat
    ghost var place: Place

    constructor ()
      ensures tree == null && node == null && top == 0
      ensures fresh(path) && path.Length == MAX_HEIGHT == 64
    {
      tree, node, top := null, null, 0;
      path := new Node?[MAX_HEIGHT](_ => null);
    }

    /** The iterator stands in the tree as the tree is now, and path[..top] is the chain of the
        proper ancestors of node. */
    ghost predicate Valid()
      reads this, path, tree, if tree != null then Nodes(tree.shape) else {}
    {
      && tree != null && tree.Valid() && Height(tree.shape) <= MAX_HEIGHT
      && path.Length == MAX_HEIGHT && top <= MAX_HEIGHT
      && (node == null ==> top == 0)
      && (node != null ==>
            && place.s.Branch? && Plug(place.c, place.s) == tree.shape
            && node == place.s.node && path[..top] == Spine(place.c))
    }

    /** How many values of the tree come before the current one. */
    ghost function Pos(): (i: nat)
      requires Valid() && node != null
      reads this, path, tree, if tree != null then Nodes(tree.shape) else {}
      ensures i < |tree.Contents()|
    {
      AtIndex(place.c, place.s, tree.Contents());
      Index(place.c, place.s)
    }

    /** Goes down to the child on side d, which is there, leaving the node behind on the stack. */
    method Descend(d: bool)
      requires Valid() && node != null && Child(place.s, d).Branch?
      modifies this, path
      ensures tree == old(tree) && path == old(path) && top == old(top) + 1
      ensures Valid() && node != null
      ensures place == Place(Down(old(place.c), old(place.s), d), Child(old(place.s), d))
    {
      ghost var c, s := place.c, place.s;
      See(c, s, tree.root);
      PlugHeight(c, s);
      path[top] := node;
      top := top + 1;
      node := node.link.At(d);
      place := Place(Down(c, s, d), Child(s, d));
      assert path[..top] == path[..top - 1] + [path[top - 1]];
    }

    /** Puts the iterator at the root of t, with nothing on the stack. */
    method Begin(t: RbTree)
      requires t.Valid() && Height(t.shape) <= MAX_HEIGHT && path.Length == MAX_HEIGHT
      modifies this
      ensures path == old(path) && tree == t && top == 0 && Valid()
      ensures node == null <==> t.Contents() == []
      ensures node != null ==> place == Place(Top, t.shape) && Before(Top) + In(t.shape) + After(Top) == t.Contents()
    {
      tree, node, top := t, t.root, 0;
      place := Place(Top, t.shape);
      assert [] + In(t.shape) + [] == In(t.shape);
    }

    /** One step down in search of v. */
    method Approach(c: int, v: Value) returns (cmp: int)
      requires Valid() && node != null && c == tree.cmp(node.value, v) != 0 && node.link.At(c < 0) != null
      requires RbInsert.Searching(place.c, place.s, tree.cmp, v, tree.Contents())
      modifies this, path
      ensures path == old(path) && tree == old(tree) && top == old(top) + 1 && Valid() && node != null
      ensures cmp == tree.cmp(node.value, v)
      ensures RbInsert.Searching(place.c, place.s, tree.cmp, v, tree.Contents())
      ensures Size(place.s) < old(Size(place.s))
    {
      See(place.c, place.s, tree.root);
      RbInsert.DownSearching(place.c, place.s, tree.cmp, v, tree.Contents());
      Descend(c < 0);
      cmp := tree.cmp(node.value, v);
    }

    /** Walks down in search of v as far as it goes; returns the last comparison. A round is one comparison. */
    method BinarySearch(t: RbTree, v: Value) returns (cmp: int, ghost rounds: nat)
      requires t.Valid() && Height(t.shape) <= MAX_HEIGHT && path.Length == MAX_HEIGHT
      modifies this, path
      ensures path == old(path) && tree == t && Valid()
      ensures node == null <==> t.Contents() == []
      ensures node == null ==> cmp == 0
      ensures node != null ==> node.value == place.s.value && cmp == t.cmp(node.value, v)
      ensures node != null ==> RbInsert.Searching(place.c, place.s, t.cmp, v, t.Contents())
      ensures node != null && cmp != 0 ==> Child(place.s, cmp < 0).Leaf?
      ensures rounds <= Height(t.shape)
    {
      cmp, rounds := 0, 0;
      Begin(t);
      if node != null {
        cmp := tree.cmp(node.value, v);
        rounds := 1;
        while cmp != 0 && node.link.At(cmp < 0) != null
          invariant tree == t && path == old(path) && Valid() && node != null
          invariant rounds == top + 1
          invariant cmp == t.cmp(node.value, v)
          invariant RbInsert.Searching(place.c, place.s, t.cmp, v, t.Contents())
          decreases Size(place.s)
        {
          cmp := Approach(cmp, v);
          rounds := rounds + 1;
        }
        See(place.c, place.s, t.root);
        PlugHeight(place.c, place.s);
      }
    }

    /** Goes down on side d as far as there are children, to the far end of the subtree. */
    method Slide(d: bool)
      requires Valid() && node != null
      modifies this, path
      ensures path == old(path) && tree == old(tree) && Valid() && node != null
      ensures Child(place.s, d).Leaf?
      ensures if d then After(place.c) == old(After(place.c)) else Before(place.c) == old(Before(place.c))
    {
      while node.link.At(d) != null
        invariant tree == old(tree) && path == old(path) && Valid() && node != null
        invariant if d then After(place.c) == old(After(place.c)) else Before(place.c) == old(Before(place.c))
        decreases Size(place.s)
      {
        See(place.c, place.s, tree.root);
        Descend(d);
      }
      See(place.c, place.s, tree.root);
    }

    /** Goes to the first (dir false) or last (dir true) value. */
    method Start(t: RbTree, dir: bool) returns (result: Option<Value>)
      requires t.Valid() && Height(t.shape) <= MAX_HEIGHT && path.Length == MAX_HEIGHT
      modifies this, path
      ensures path == old(path) && tree == t && Valid()
      ensures node == null <==> t.Contents() == []
      ensures node == null ==> result == None
      ensures node != null ==> Pos() == if dir then |t.Contents()| - 1 else 0
      ensures node != null ==> result == Some(t.Contents()[Pos()])
    {
      Begin(t);
      if node == null { return None; }
      Slide(dir);
      See(place.c, place.s, t.root);
      AtFarEnd(place.c, place.s, dir, t.Contents());
      result := Some(node.value);
    }

    /** Goes back up to the parent, the last entry of the stack. */
    method Ascend()
      requires Valid() && node != null && top > 0
      modifies this
      ensures tree == old(tree) && path == old(path) && top == old(top) - 1
      ensures Valid() && node != null && old(place.c).Step?
      ensures place == Place(old(place.c).up, Above(old(place.c), old(place.s)))
    {
      ghost var c, s := place.c, place.s;
      assert Spine(c) == Spine(c.up) + [c.node];
      top := top - 1;
      node := path[top];
      place := Place(c.up, Above(c, s));
      assert path[..top] == path[..top + 1][..top];
    }

    /** Goes to the neighbour on side dir when it lies in the subtree below. */
    method MoveDown(dir: bool)
      requires Valid() && node != null && Child(place.s, dir).Branch?
      modifies this, path
      ensures path == old(path) && tree == old(tree) && Valid() && node != null
      ensures Pos() == if dir then old(Pos()) + 1 else old(Pos()) - 1
    {
      ghost var c, s := place.c, place.s;
      AtIndex(c, s, tree.Contents());
      Descend(dir);
      Slide(!dir);
      AtIndex(place.c, place.s, tree.Contents());
      NearEnd(c, s, dir, place.c, place.s);
    }

    /** Goes up to the neighbour on side dir when there is no subtree on that side; null if there is none. */
    method MoveUp(dir: bool)
      requires Valid() && node != null && Child(place.s, dir).Leaf?
      modifies this, path
      ensures path == old(path) && tree == old(tree) && Valid()
      ensures node != null <==> if dir then old(Pos()) + 1 < |tree.Contents()| else old(Pos()) > 0
      ensures node != null ==> Pos() == if dir then old(Pos()) + 1 else old(Pos()) - 1
    {
      ghost var i := Pos();
      ClimbStarts(place.c, place.s, dir);
      while true
        invariant path == old(path) && tree == old(tree) && Valid() && node != null
        invariant Passed(place.c, place.s, dir) == if dir then i + 1 else i
        decreases top
      {
        if top == 0 {
          ClimbEnds(place.s, dir, tree.Contents());
          node := null;
          break;
        }
        var last := node;
        Climb(place.c, place.s, tree.root, dir, tree.Contents());
        Ascend();
        if last != node.link.At(dir) { break; }
      }
    }

    /** Moves to the next (dir true) or previous (dir false) value. */
    method Move(dir: bool) returns (result: Option<Value>)
      requires Valid() && node != null
      modifies this, path
      ensures path == old(path) && tree == old(tree) && Valid()
      ensures node != null <==> if dir then old(Pos()) + 1 < |tree.Contents()| else old(Pos()) > 0
      ensures node != null ==>
        && Pos() == (if dir then old(Pos()) + 1 else old(Pos()) - 1)
        && result == Some(tree.Contents()[Pos()])
      ensures node == null ==> result == None
    {
      AtIndex(place.c, place.s, tree.Contents());
      See(place.c, place.s, tree.root);
      if node.link.At(dir) != null {
        MoveDown(dir);
      } else {
        MoveUp(dir);
      }
      if node == null { return None; }
      AtIndex(place.c, place.s, tree.Contents());
      See(place.c, place.s, tree.root);
      result := Some(node.value);
    }

    method First(t: RbTree) returns (result: Option<Value>)
      requires t.Valid() && Height(t.shape) <= MAX_HEIGHT && path.Length == MAX_HEIGHT
      modifies this, path
      ensures path == old(path) && tree == t && Valid()
      ensures if t.Contents() == [] then node == null && result == None
              else node != null && Pos() == 0 && result == Some(t.Contents()[0])
    {
      result := Start(t, false);
    }

    method Last(t: RbTree) returns (result: Option<Value>)
      requires t.Valid() && Height(t.shape) <= MAX_HEIGHT && path.Length == MAX_HEIGHT
      modifies this, path
      ensures path == old(path) && tree == t && Valid()
      ensures if t.Contents() == [] then node == null && result == None
              else node != null && Pos() == |t.Contents()| - 1 && result == Some(t.Contents()[Pos()])
    {
      result := Start(t, true);
    }

    /** From the i-th value to the one after it; at the end, null. */
    method Next() returns (result: Option<Value>)
      requires Valid() && node != null
      modifies this, path
      ensures path == old(path) && tree == old(tree) && Valid()
      ensures if old(Pos()) + 1 < |tree.Contents()|
              then node != null && Pos() == old(Pos()) + 1 && result == Some(tree.Contents()[Pos()])
              else node == null && result == None
    {
      result := Move(true);
    }

    method Prev() returns (result: Option<Value>)
      requires Valid() && node != null
      modifies this, path
      ensures path == old(path) && tree == old(tree) && Valid()
      ensures if old(Pos()) > 0
              then node != null && Pos() == old(Pos()) - 1 && result == Some(tree.Contents()[Pos()])
              else node == null && result == None
    {
      result := Move(false);
    }

    /** The least value not below v. */
    method LowerBound(t: RbTree, v: Value) returns (result: Option<Value>)
      requires t.Valid() && Height(t.shape) <= MAX_HEIGHT && path.Length == MAX_HEIGHT
      modifies this, path
      ensures path == old(path) && tree == t && Valid()
      ensures AtBound(t, result, Rank(t.cmp, t.Contents(), v))
    {
      var cmp, _ := BinarySearch(t, v);
      if node == null { return None; }
      FoundAt(place.c, place.s, t.cmp, v, t.Contents());
      if cmp < 0 {
        result := Next();
      } else {
        result := Some(node.value);
      }
    }

    /** The least value above v. */
    method UpperBound(t: RbTree, v: Value) returns (result: Option<Value>)
      requires t.Valid() && Height(t.shape) <= MAX_HEIGHT && path.Length == MAX_HEIGHT
      modifies this, path
      ensures path == old(path) && tree == t && Valid()
      ensures AtBound(t, result, UpperRank(t.cmp, t.Contents(), v))
    {
      var cmp, _ := BinarySearch(t, v);
      if node == null { return None; }
      FoundAt(place.c, place.s, t.cmp, v, t.Contents());
      if cmp > 0 {
        result := Some(node.value);
      } else {
        result := Next();
      }
    }

    /** The iterator stands at position i and has returned the value there; null if i is the end. */
    ghost predicate AtBound(t: RbTree, result: Option<Value>, i: nat)
      requires Valid()
      reads this, path, tree, t, if tree != null then Nodes(tree.shape) else {}
    {
      if i < |t.Contents()| then node != null && Pos() == i && result == Some(t.Contents()[i])
      else node == null && result == None
    }
  }

  /** Two nodes with equal values: the second is refused, and counted. */
  method CountsTwice(cmp: Order, v: Value) returns (t: RbTree)
    requires TotalOrder(cmp)
    ensures t.Valid() && t.size == 2 && t.Contents() == [v]
  {
    t := new RbTree(cmp);
    var first := new Node(v);
    var _, _ := t.InsertNode(first);
    assert cmp(v, v) == 0;
    assert With(cmp, [], v) == [v] && Holds(cmp, [v], v) by { assert [v][0] == v; }
    Exist(t.shape);
    var second := new Node(v);
    var _, _ := t.InsertNode(second);
  }

  /** Where a binary search that cannot go on has arrived. */
  lemma {:induction false} FoundAt(c: Ctx, s: Tree, cmp: Order, v: Value, all: seq<Value>)
    requires s.Branch? && RbInsert.Searching(c, s, cmp, v, all) && TotalOrder(cmp) && Sorted(cmp, all)
    requires var d := cmp(s.value, v); d != 0 ==> Child(s, d < 0).Leaf?
    ensures Rank(cmp, all, v) == Index(c, s) + if cmp(s.value, v) < 0 then 1 else 0
    ensures UpperRank(cmp, all, v) == Index(c, s) + if cmp(s.value, v) <= 0 then 1 else 0
    ensures Holds(cmp, all, v) <==> cmp(s.value, v) == 0
    ensures Index(c, s) < |all| && all[Index(c, s)] == s.value
  {
    DownSplits(c, s, true);
    var l, x, r := Before(c) + In(s.left), s.value, In(s.right) + After(c);
    SplitSorted(cmp, l, x, r, v);
    if cmp(x, v) < 0 {
      assert r == After(c);
    } else if cmp(x, v) > 0 {
      assert l == Before(c);
    }
    RankMiddle(cmp, l, x, r, v);
    UpperRankMiddle(cmp, l, x, r, v);
  }
}
