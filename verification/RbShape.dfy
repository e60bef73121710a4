/** Heap nodes of the red-black tree and the mathematical shapes that describe them.

    A `Tree` is a snapshot of a subtree: which node sits where, with which colour and
    value. A `Ctx` is the rest of the tree around a hole, listed from the hole up to the
    root, so that a search path is a `Ctx` and the subtree still to be searched is a `Tree`.
    `Rep` and `RepCtx` say that the heap currently looks like the snapshot. */
module RbShape {
  import opened RbContents

  /** The array `link[2]` of a node; true stands for index 1. */
  datatype Links = Links(left: Node?, right: Node?) {
    function At(d: bool): Node? { if d then right else left }

    function With(d: bool, n: Node?): Links { if d then Links(left, n) else Links(n, right) }
  }

  class Node {
    var red: bool
    var link: Links
    var value: Value

    constructor (v: Value)
      ensures red && link == Links(null, null) && value == v
    {
      red, link, value := true, Links(null, null), v;
    }
  }

  datatype Tree = Leaf | Branch(node: Node, red: bool, left: Tree, value: Value, right: Tree)

  datatype Ctx = Top | Step(node: Node, red: bool, value: Value, dir: bool, sib: Tree, up: Ctx)

  ghost function Child(t: Tree, d: bool): Tree
    requires t.Branch?
  {
    if d then t.right else t.left
  }

  /** The tree whose child on side d is `near` and whose other child is `far`. */
  ghost function Make(n: Node, red: bool, v: Value, d: bool, near: Tree, far: Tree): Tree {
    if d then Branch(n, red, far, v, near) else Branch(n, red, near, v, far)
  }

  ghost predicate IsRed(t: Tree) { t.Branch? && t.red }

  ghost predicate CRed(c: Ctx) { c.Step? && c.red }

  /** The tree a context and the subtree in its hole make up together. */
  ghost function Plug(c: Ctx, s: Tree): Tree
    decreases c
  {
    match c
    case Top => s
    case Step(n, r, v, d, sib, up) => Plug(up, Make(n, r, v, d, s, sib))
  }

  // ---------- values in order ----------

  ghost function In(t: Tree): seq<Value> {
    match t
    case Leaf => []
    case Branch(_, _, l, v, r) => In(l) + [v] + In(r)
  }

  /** Values to the left of the hole. */
  ghost function Before(c: Ctx): seq<Value> {
    match c
    case Top => []
    case Step(_, _, v, d, sib, up) => if d then Before(up) + In(sib) + [v] else Before(up)
  }

  /** Values to the right of the hole. */
  ghost function After(c: Ctx): seq<Value> {
    match c
    case Top => []
    case Step(_, _, v, d, sib, up) => if d then After(up) else [v] + In(sib) + After(up)
  }

  lemma {:induction false} InPlug(c: Ctx, s: Tree)
    ensures In(Plug(c, s)) == Before(c) + In(s) + After(c)
    decreases c
  {
    match c
    case Top =>
      assert [] + In(s) + [] == In(s);
    case Step(n, r, v, d, sib, up) =>
      InPlug(up, Make(n, r, v, d, s, sib));
      Regroup(Before(up), In(sib), v, In(s), After(up));
      Regroup(Before(up), In(s), v, In(sib), After(up));
  }

  lemma {:induction false} Regroup(a: seq<Value>, b: seq<Value>, v: Value, c: seq<Value>, d: seq<Value>)
    ensures a + (b + [v] + c) + d == (a + b + [v]) + c + d
    ensures a + (b + [v] + c) + d == a + b + ([v] + c + d)
  {
  }

  lemma {:induction false} RootIn(s: Tree)
    requires s.Branch?
    ensures |In(s.left)| < |In(s)| && In(s)[|In(s.left)|] == s.value
  {
  }

  // ---------- nodes ----------

  ghost function Nodes(t: Tree): set<Node> {
    match t
    case Leaf => {}
    case Branch(n, _, l, _, r) => {n} + Nodes(l) + Nodes(r)
  }

  ghost function CNodes(c: Ctx): set<Node> {
    match c
    case Top => {}
    case Step(n, _, _, _, sib, up) => {n} + Nodes(sib) + CNodes(up)
  }

  /** No node occurs twice. */
  ghost predicate Distinct(t: Tree) {
    match t
    case Leaf => true
    case Branch(n, _, l, _, r) =>
      Distinct(l) && Distinct(r) && n !in Nodes(l) && n !in Nodes(r) && Nodes(l) !! Nodes(r)
  }

  ghost predicate CDistinct(c: Ctx) {
    match c
    case Top => true
    case Step(n, _, _, _, sib, up) =>
      Distinct(sib) && CDistinct(up) && n !in Nodes(sib) && n !in CNodes(up) && Nodes(sib) !! CNodes(up)
  }

  ghost predicate Apart(c: Ctx, s: Tree) {
    Distinct(s) && CDistinct(c) && Nodes(s) !! CNodes(c)
  }

  lemma {:induction false} PlugNodes(c: Ctx, s: Tree)
    requires Apart(c, s)
    ensures Distinct(Plug(c, s)) && Nodes(Plug(c, s)) == CNodes(c) + Nodes(s)
    decreases c
  {
    match c
    case Top =>
    case Step(n, r, v, d, sib, up) => PlugNodes(up, Make(n, r, v, d, s, sib));
  }

  // ---------- the heap ----------

  ghost predicate Rep(n: Node?, t: Tree)
    reads Nodes(t)
  {
    match t
    case Leaf => n == null
    case Branch(x, r, l, v, rt) =>
      n == x && x.red == r && x.value == v && Rep(x.link.left, l) && Rep(x.link.right, rt)
  }

  /** The nodes of `c` lead from `root` down to `hole`. */
  ghost predicate RepCtx(c: Ctx, hole: Node?, root: Node?)
    reads CNodes(c)
  {
    match c
    case Top => hole == root
    case Step(x, r, v, d, sib, up) =>
      x.red == r && x.value == v && x.link.At(d) == hole && Rep(x.link.At(!d), sib) && RepCtx(up, x, root)
  }

  /** Snapshots only mention nodes that exist, so code that spares them keeps them intact. */
  lemma {:induction false} Exist(t: Tree)
    ensures forall x :: x in Nodes(t) ==> allocated(x)
  {
    if t.Branch? {
      Exist(t.left);
      Exist(t.right);
    }
  }

  lemma {:induction false} CExist(c: Ctx)
    ensures forall x :: x in CNodes(c) ==> allocated(x)
  {
    if c.Step? {
      Exist(c.sib);
      CExist(c.up);
    }
  }

  lemma {:induction false} RepPlug(c: Ctx, s: Tree, q: Node?, root: Node?)
    requires RepCtx(c, q, root) && Rep(q, s)
    ensures Rep(root, Plug(c, s))
    decreases c
  {
    match c
    case Top =>
    case Step(n, r, v, d, sib, up) => RepPlug(up, Make(n, r, v, d, s, sib), n, root);
  }

  // ---------- red-black rules ----------

  /** Black nodes on the leftmost path; in an `Rb` tree, on every path. */
  ghost function Bh(t: Tree): nat {
    match t
    case Leaf => 0
    case Branch(_, red, l, _, _) => Bh(l) + if red then 0 else 1
  }

  /** No red node has a red child and all paths have the same number of black nodes. */
  ghost predicate Rb(t: Tree) {
    match t
    case Leaf => true
    case Branch(_, red, l, _, r) =>
      Rb(l) && Rb(r) && Bh(l) == Bh(r) && (red ==> !IsRed(l) && !IsRed(r))
  }

  /** The same rules for what lies around a hole that takes a subtree of black height h. */
  ghost predicate CRb(c: Ctx, h: nat) {
    match c
    case Top => true
    case Step(_, red, _, _, sib, up) =>
      && Rb(sib) && Bh(sib) == h
      && (red ==> !IsRed(sib) && !CRed(up))
      && CRb(up, if red then h else h + 1)
  }

  lemma {:induction false} RbPlug(c: Ctx, s: Tree)
    requires Rb(s) && CRb(c, Bh(s)) && !(IsRed(s) && CRed(c))
    ensures Rb(Plug(c, s))
    decreases c
  {
    match c
    case Top =>
    case Step(n, r, v, d, sib, up) => RbPlug(up, Make(n, r, v, d, s, sib));
  }

  // ---------- search paths ----------

  /** Each step of the path went the way the comparison with v says. */
  ghost predicate Path(c: Ctx, cmp: Order, v: Value) {
    match c
    case Top => true
    case Step(_, _, x, d, _, up) => d == (cmp(x, v) < 0) && Path(up, cmp, v)
  }

  ghost function Size(t: Tree): nat {
    match t
    case Leaf => 0
    case Branch(_, _, l, _, r) => Size(l) + 1 + Size(r)
  }

  ghost function Height(t: Tree): nat {
    if t.Leaf? then 0
    else 1 + if Height(t.left) > Height(t.right) then Height(t.left) else Height(t.right)
  }

  /** A red-black search tree with a black root. */
  ghost predicate ValidTree(t: Tree, cmp: Order) {
    && Distinct(t) && Rb(t) && !IsRed(t)
    && TotalOrder(cmp) && Sorted(cmp, In(t))
  }
}
