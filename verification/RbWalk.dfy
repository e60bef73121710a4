/** Positions in a tree: the explicit stack of the iterators and how deep it can get. */
module RbWalk {
  import opened RbContents
  import opened RbShape
  import opened RbPath

  ghost function Depth(c: Ctx): nat {
    if c.Top? then 0 else Depth(c.up) + 1
  }

  /** The proper ancestors of the hole, from the root down: what `path` must hold. */
  ghost function Spine(c: Ctx): (p: seq<Node>)
    ensures |p| == Depth(c)
  {
    if c.Top? then [] else Spine(c.up) + [c.node]
  }

  lemma {:induction false} PlugHeight(c: Ctx, s: Tree)
    ensures Depth(c) + Height(s) <= Height(Plug(c, s))
    decreases c
  {
    if c.Step? { PlugHeight(c.up, Above(c, s)); }
  }

  lemma {:induction false} UnplugRep(c: Ctx, s: Tree, root: Node?)
    requires Rep(root, Plug(c, s)) && s.Branch?
    ensures RepCtx(c, s.node, root) && Rep(s.node, s)
    decreases c
  {
    if c.Step? {
      UnplugRep(c.up, Above(c, s), root);
      RepUnder(c, s, c.node, root);
    } else {
      assert root == s.node;
    }
  }

  /** What the code sees at the root of s: links are null exactly where the children are leaves. */
  lemma {:induction false} See(c: Ctx, s: Tree, root: Node?)
    requires Rep(root, Plug(c, s)) && s.Branch?
    ensures s.node.value == s.value
    ensures forall d :: s.node.link.At(d) == if Child(s, d).Leaf? then null else Child(s, d).node
  {
    UnplugRep(c, s, root);
    RepDown(c, s, false, s.node, root);
    RepDown(c, s, true, s.node, root);
  }

  lemma {:induction false} UnplugApart(c: Ctx, s: Tree)
    requires Distinct(Plug(c, s))
    ensures Apart(c, s)
    decreases c
  {
    if c.Step? { UnplugApart(c.up, Above(c, s)); }
  }

  // ---------- the height of a red-black tree ----------

  function Pow2(n: nat): nat {
    if n == 0 then 1 else 2 * Pow2(n - 1)
  }

  lemma {:induction false} Pow2Grows(m: nat, n: nat)
    requires m <= n
    ensures Pow2(m) <= Pow2(n)
    decreases n
  {
    if m < n { Pow2Grows(m, n - 1); }
  }

  lemma {:induction false} BlackHeightBound(t: Tree)
    requires Rb(t)
    ensures Size(t) + 1 >= Pow2(Bh(t))
    ensures Height(t) <= 2 * Bh(t) + if IsRed(t) then 1 else 0
  {
    if t.Branch? {
      BlackHeightBound(t.left);
      BlackHeightBound(t.right);
    }
  }

  /** A valid red-black tree of height h has at least 2^ceil(h/2) - 1 nodes. */
  lemma {:induction false} HeightBound(t: Tree)
    requires Rb(t) && !IsRed(t)
    ensures Size(t) >= Pow2((Height(t) + 1) / 2) - 1
  {
    BlackHeightBound(t);
    Pow2Grows((Height(t) + 1) / 2, Bh(t));
  }

  /** The logarithm to base 2, rounded down. */
  function Log2(n: nat): nat {
    if n < 2 then 0 else 1 + Log2(n / 2)
  }

  lemma {:induction false} Log2Is(n: nat)
    requires n > 0
    ensures Pow2(Log2(n)) <= n < 2 * Pow2(Log2(n))
  {
    if n >= 2 { Log2Is(n / 2); }
  }

  lemma {:induction false} Log2AtLeast(k: nat, n: nat)
    requires Pow2(k) <= n
    ensures k <= Log2(n)
  {
    if k > 0 {
      Pow2Grows(0, k - 1);
      Log2AtLeast(k - 1, n / 2);
    }
  }

  /** The height of a red-black tree is at most twice the logarithm of the number of its values. */
  lemma {:induction false} HeightIsLog(t: Tree)
    requires Rb(t) && !IsRed(t)
    ensures Height(t) <= 2 * Log2(|In(t)| + 1)
    ensures Pow2(Log2(|In(t)| + 1)) <= |In(t)| + 1 < 2 * Pow2(Log2(|In(t)| + 1))
  {
    SizeIn(t);
    Log2Is(|In(t)| + 1);
    HeightBound(t);
    Log2AtLeast((Height(t) + 1) / 2, |In(t)| + 1);
  }

  lemma {:induction false} SizeIn(t: Tree)
    ensures Size(t) == |In(t)|
  {
    if t.Branch? {
      SizeIn(t.left);
      SizeIn(t.right);
    }
  }

  const MAX_HEIGHT: nat := 64

  /** With fewer than 2^32 values the 64 entries of an iterator's path are enough. */
  lemma {:induction false} FitsThePath(t: Tree)
    requires Rb(t) && !IsRed(t) && |In(t)| < 0x1_0000_0000
    ensures Height(t) <= 64 == MAX_HEIGHT
  {
    SizeIn(t);
    HeightBound(t);
    if Height(t) > MAX_HEIGHT {
      Pow2Grows(33, (Height(t) + 1) / 2);
      assert Pow2(33) == 0x2_0000_0000 by { Pow2Values(); }
    }
  }

  lemma {:induction false} Pow2Values()
    ensures Pow2(33) == 0x2_0000_0000
  {
    assert Pow2(8) == 0x100;
    assert Pow2(16) == 0x1_0000;
    assert Pow2(24) == 0x100_0000;
    assert Pow2(32) == 0x1_0000_0000;
  }

  // ---------- positions ----------

  /** How many values lie left of the root of s. */
  ghost function Index(c: Ctx, s: Tree): nat
    requires s.Branch?
  {
    |Before(c)| + |In(s.left)|
  }

  lemma {:induction false} AtIndex(c: Ctx, s: Tree, all: seq<Value>)
    requires s.Branch? && In(Plug(c, s)) == all
    ensures Index(c, s) < |all| && all[Index(c, s)] == s.value
    ensures |all| == |Before(c)| + |In(s)| + |After(c)|
    ensures Before(c) + In(s) + After(c) == all
  {
    InPlug(c, s);
    DownSplits(c, s, true);
  }

  lemma {:induction false} AtFarEnd(c: Ctx, s: Tree, dir: bool, all: seq<Value>)
    requires s.Branch? && In(Plug(c, s)) == all && Child(s, dir).Leaf?
    requires if dir then After(c) == [] else Before(c) == []
    ensures Index(c, s) < |all| && Index(c, s) == if dir then |all| - 1 else 0
    ensures all[Index(c, s)] == s.value
  {
    AtIndex(c, s, all);
  }

  /** The near end of the subtree on side dir of s is its neighbour. */
  lemma {:induction false} NearEnd(c: Ctx, s: Tree, dir: bool, c': Ctx, s': Tree)
    requires s.Branch? && s'.Branch? && Child(s', !dir).Leaf?
    requires |Before(c)| + |In(s)| + |After(c)| == |Before(c')| + |In(s')| + |After(c')|
    requires if dir then Before(c') == Before(Down(c, s, dir)) else After(c') == After(Down(c, s, dir))
    ensures Index(c', s') == if dir then Index(c, s) + 1 else Index(c, s) - 1
  {
  }

  datatype Place = Place(c: Ctx, s: Tree)

  /** The place of the k-th value of s below c. */
  ghost function Locate(c: Ctx, s: Tree, k: nat): Place
    requires k < |In(s)|
    decreases s
  {
    var n := |In(s.left)|;
    if k == n then Place(c, s)
    else if k < n then Locate(Down(c, s, false), s.left, k)
    else Locate(Down(c, s, true), s.right, k - n - 1)
  }

  lemma {:induction false} LocateBelow(c: Ctx, s: Tree, k: nat)
    requires k < |In(s)|
    ensures |Before(c)| + k < |In(Plug(c, s))|
    ensures Locate(Top, Plug(c, s), |Before(c)| + k) == Locate(c, s, k)
    decreases c
  {
    InPlug(c, s);
    if c.Step? {
      var up := Above(c, s);
      if c.dir {
        LocateBelow(c.up, up, |In(c.sib)| + 1 + k);
      } else {
        LocateBelow(c.up, up, k);
      }
    }
  }

  /** The position of an iterator determines its node and its whole path. */
  lemma {:induction false} PlaceIsUnique(c: Ctx, s: Tree, c': Ctx, s': Tree)
    requires s.Branch? && s'.Branch? && Plug(c, s) == Plug(c', s') && Index(c, s) == Index(c', s')
    ensures c == c' && s == s'
  {
    LocateBelow(c, s, |In(s.left)|);
    LocateBelow(c', s', |In(s'.left)|);
  }

  /** What lies up to the far end of s when climbing in search of the neighbour on side dir. */
  ghost function Passed(c: Ctx, s: Tree, dir: bool): nat {
    |Before(c)| + if dir then |In(s)| else 0
  }

  /** Climbing one step either passes more of the tree or arrives at the neighbour. */
  lemma {:induction false} Climb(c: Ctx, s: Tree, root: Node?, dir: bool, all: seq<Value>)
    requires c.Step? && s.Branch? && Rep(root, Plug(c, s)) && Distinct(Plug(c, s)) && In(Plug(c, s)) == all
    ensures (c.node.link.At(dir) == s.node) == (c.dir == dir)
    ensures c.dir == dir ==> Passed(c.up, Above(c, s), dir) == Passed(c, s, dir)
    ensures c.dir != dir ==>
      && Index(c.up, Above(c, s)) == (if dir then Passed(c, s, dir) else Passed(c, s, dir) - 1)
      && (if dir then Passed(c, s, dir) < |all| else Passed(c, s, dir) > 0)
  {
    UnplugApart(c, s);
    See(c.up, Above(c, s), root);
    AtIndex(c, s, all);
  }

  lemma {:induction false} ClimbStarts(c: Ctx, s: Tree, dir: bool)
    requires s.Branch? && Child(s, dir).Leaf?
    ensures Passed(c, s, dir) == Index(c, s) + if dir then 1 else 0
  {
    assert In(Child(s, dir)) == [];
  }

  lemma {:induction false} ClimbEnds(s: Tree, dir: bool, all: seq<Value>)
    requires In(s) == all
    ensures Passed(Top, s, dir) == if dir then |all| else 0
  {
  }
}
