/** What a tree holds, seen as a sorted sequence of values. */
module RbContents {

  /** What a `void*` value of the tree points to. */
  type Value(==, !new)

  /** The comparison callback: negative, zero or positive. */
  type Order = (Value, Value) -> int

  /** What the tree demands of the callback. Values that compare as 0 need not be equal. */
  ghost predicate TotalOrder(cmp: Order) {
    && (forall a, b :: cmp(a, b) < 0 <==> cmp(b, a) > 0)
    && (forall a, b, c :: cmp(a, b) <= 0 && cmp(b, c) <= 0 ==> cmp(a, c) <= 0)
  }

  ghost predicate Sorted(cmp: Order, s: seq<Value>) {
    forall i, j :: 0 <= i < j < |s| ==> cmp(s[i], s[j]) < 0
  }

  ghost predicate AllBelow(cmp: Order, s: seq<Value>, v: Value) {
    forall i :: 0 <= i < |s| ==> cmp(s[i], v) < 0
  }

  ghost predicate AllAbove(cmp: Order, s: seq<Value>, v: Value) {
    forall i :: 0 <= i < |s| ==> cmp(s[i], v) > 0
  }

  // ---------- what insertion and removal do to the contents ----------

  /** The position of v in s: behind everything that compares below it. */
  ghost function Rank(cmp: Order, s: seq<Value>, v: Value): (r: nat)
    ensures r <= |s|
  {
    if s == [] || cmp(s[0], v) >= 0 then 0 else 1 + Rank(cmp, s[1..], v)
  }

  /** Some element of s compares equal to v. */
  ghost predicate Holds(cmp: Order, s: seq<Value>, v: Value) {
    exists i :: 0 <= i < |s| && cmp(s[i], v) == 0
  }

  /** s with v put in its place. */
  ghost function With(cmp: Order, s: seq<Value>, v: Value): seq<Value> {
    var r := Rank(cmp, s, v);
    s[..r] + [v] + s[r..]
  }

  lemma {:induction false} RankSplits(cmp: Order, l: seq<Value>, r: seq<Value>, v: Value)
    requires AllBelow(cmp, l, v) && (r == [] || cmp(r[0], v) >= 0)
    ensures Rank(cmp, l + r, v) == |l|
  {
    if l == [] {
      assert l + r == r;
    } else {
      assert (l + r)[1..] == l[1..] + r && (l + r)[0] == l[0];
      RankSplits(cmp, l[1..], r, v);
    }
  }

  lemma {:induction false} WithSplits(cmp: Order, l: seq<Value>, r: seq<Value>, v: Value)
    requires AllBelow(cmp, l, v) && AllAbove(cmp, r, v)
    ensures With(cmp, l + r, v) == l + [v] + r
    ensures !Holds(cmp, l + r, v)
  {
    RankSplits(cmp, l, r, v);
  }

  /** s without the element at v's position. */
  ghost function Without(cmp: Order, s: seq<Value>, v: Value): seq<Value> {
    var r := Rank(cmp, s, v);
    if r < |s| then s[..r] + s[r + 1..] else s
  }

  lemma {:induction false} WithoutSplits(cmp: Order, l: seq<Value>, x: Value, r: seq<Value>, v: Value)
    requires AllBelow(cmp, l, v) && cmp(x, v) == 0
    ensures Without(cmp, l + [x] + r, v) == l + r
    ensures Rank(cmp, l + [x] + r, v) == |l|
  {
    assert l + [x] + r == l + ([x] + r);
    RankSplits(cmp, l, [x] + r, v);
  }

  lemma {:induction false} SortedParts(cmp: Order, l: seq<Value>, x: Value, r: seq<Value>)
    requires Sorted(cmp, l + [x] + r) && TotalOrder(cmp)
    ensures Sorted(cmp, l) && Sorted(cmp, r)
    ensures AllBelow(cmp, l, x) && AllAbove(cmp, r, x)
  {
    var s := l + [x] + r;
    assert s[|l|] == x;
    assert forall i :: 0 <= i < |l| ==> l[i] == s[i];
    assert forall i :: 0 <= i < |r| ==> r[i] == s[|l| + 1 + i];
  }

  lemma {:induction false} SortedJoin(cmp: Order, l: seq<Value>, x: Value, r: seq<Value>)
    requires TotalOrder(cmp) && Sorted(cmp, l) && Sorted(cmp, r) && AllBelow(cmp, l, x) && AllAbove(cmp, r, x)
    ensures Sorted(cmp, l + [x] + r)
  {
    var s := l + [x] + r;
    forall i, j | 0 <= i < j < |s|
      ensures cmp(s[i], s[j]) < 0
    {
      if i < |l| { assert cmp(l[i], x) < 0; }
      if j > |l| { assert cmp(r[j - |l| - 1], x) > 0; }
    }
  }

  lemma {:induction false} SortedHalves(cmp: Order, l: seq<Value>, r: seq<Value>)
    requires Sorted(cmp, l + r)
    ensures Sorted(cmp, l) && Sorted(cmp, r)
  {
    var s := l + r;
    assert forall i :: 0 <= i < |l| ==> l[i] == s[i];
    assert forall i :: 0 <= i < |r| ==> r[i] == s[|l| + i];
  }

  lemma {:induction false} SortedSplit(cmp: Order, l: seq<Value>, r: seq<Value>, v: Value)
    requires TotalOrder(cmp) && Sorted(cmp, l + r) && AllBelow(cmp, l, v) && AllAbove(cmp, r, v)
    ensures Sorted(cmp, l + [v] + r)
  {
    SortedHalves(cmp, l, r);
    SortedJoin(cmp, l, v, r);
  }

  lemma {:induction false} RankMeans(cmp: Order, s: seq<Value>, v: Value)
    ensures forall i :: 0 <= i < Rank(cmp, s, v) ==> cmp(s[i], v) < 0
    ensures Rank(cmp, s, v) < |s| ==> cmp(s[Rank(cmp, s, v)], v) >= 0
  {
    if s != [] && cmp(s[0], v) < 0 {
      RankMeans(cmp, s[1..], v);
      assert forall i :: 0 < i < |s| ==> s[i] == s[1..][i - 1];
    }
  }

  /** Behind an element that is not below v everything is above v. */
  lemma {:induction false} AboveBehind(cmp: Order, s: seq<Value>, k: nat, v: Value)
    requires TotalOrder(cmp) && Sorted(cmp, s) && k < |s| && cmp(s[k], v) >= 0
    ensures forall i :: k < i < |s| ==> cmp(s[i], v) > 0
  {
    forall i | k < i < |s|
      ensures cmp(s[i], v) > 0
    {
      assert cmp(s[k], s[i]) < 0;
    }
  }

  lemma {:induction false} HoldsAtRank(cmp: Order, s: seq<Value>, k: nat, v: Value)
    requires k <= |s| && forall i :: 0 <= i < k ==> cmp(s[i], v) < 0
    requires forall i :: k < i < |s| ==> cmp(s[i], v) > 0
    ensures Holds(cmp, s, v) <==> k < |s| && cmp(s[k], v) == 0
  {
  }

  /** The rank of v splits a sorted sequence into what is below v, at most one equal element, and
      what is above. */
  lemma {:induction false} RankSorted(cmp: Order, s: seq<Value>, v: Value)
    requires TotalOrder(cmp) && Sorted(cmp, s)
    ensures var r := Rank(cmp, s, v);
            && AllBelow(cmp, s[..r], v)
            && (Holds(cmp, s, v) <==> r < |s| && cmp(s[r], v) == 0)
            && AllAbove(cmp, s[if Holds(cmp, s, v) then r + 1 else r..], v)
  {
    var r := Rank(cmp, s, v);
    RankMeans(cmp, s, v);
    if r < |s| { AboveBehind(cmp, s, r, v); }
    HoldsAtRank(cmp, s, r, v);
    RankSlices(cmp, s, r, Holds(cmp, s, v), v);
  }

  lemma {:induction false} RankSlices(cmp: Order, s: seq<Value>, k: nat, held: bool, v: Value)
    requires k <= |s| && forall i :: 0 <= i < k ==> cmp(s[i], v) < 0
    requires forall i :: k < i < |s| ==> cmp(s[i], v) > 0
    requires k < |s| ==> if held then cmp(s[k], v) == 0 else cmp(s[k], v) > 0
    requires held ==> k < |s|
    ensures AllBelow(cmp, s[..k], v) && AllAbove(cmp, s[if held then k + 1 else k..], v)
  {
  }

  /** The parts left and right of where v belongs. */
  lemma {:induction false} Parts(cmp: Order, s: seq<Value>, v: Value) returns (l: seq<Value>, r: seq<Value>)
    requires TotalOrder(cmp) && Sorted(cmp, s) && !Holds(cmp, s, v)
    ensures s == l + r && With(cmp, s, v) == l + [v] + r
    ensures AllBelow(cmp, l, v) && AllAbove(cmp, r, v)
  {
    RankSorted(cmp, s, v);
    l, r := s[..Rank(cmp, s, v)], s[Rank(cmp, s, v)..];
  }

  /** The parts left and right of the element equal to v. */
  lemma {:induction false} PartsAround(cmp: Order, s: seq<Value>, v: Value)
    returns (l: seq<Value>, x: Value, r: seq<Value>)
    requires TotalOrder(cmp) && Sorted(cmp, s) && Holds(cmp, s, v)
    ensures s == l + [x] + r && Without(cmp, s, v) == l + r
    ensures |l| == Rank(cmp, s, v) < |s| && x == s[Rank(cmp, s, v)]
    ensures AllBelow(cmp, l, v) && cmp(x, v) == 0 && AllAbove(cmp, r, v)
  {
    RankSorted(cmp, s, v);
    var i := Rank(cmp, s, v);
    l, x, r := s[..i], s[i], s[i + 1..];
  }

  /** The position behind everything that is not above v. */
  ghost function UpperRank(cmp: Order, s: seq<Value>, v: Value): (r: nat)
    ensures r <= |s|
  {
    if s == [] || cmp(s[0], v) > 0 then 0 else 1 + UpperRank(cmp, s[1..], v)
  }

  lemma {:induction false} UpperRankSplits(cmp: Order, l: seq<Value>, r: seq<Value>, v: Value)
    requires (forall i :: 0 <= i < |l| ==> cmp(l[i], v) <= 0) && (r == [] || cmp(r[0], v) > 0)
    ensures UpperRank(cmp, l + r, v) == |l|
  {
    if l == [] {
      assert l + r == r;
    } else {
      assert (l + r)[1..] == l[1..] + r && (l + r)[0] == l[0];
      UpperRankSplits(cmp, l[1..], r, v);
    }
  }

  lemma {:induction false} UpperRankMiddle(cmp: Order, l: seq<Value>, x: Value, r: seq<Value>, v: Value)
    requires AllBelow(cmp, l, v) && AllAbove(cmp, r, v)
    ensures UpperRank(cmp, l + [x] + r, v) == |l| + if cmp(x, v) <= 0 then 1 else 0
  {
    if cmp(x, v) <= 0 {
      UpperRankSplits(cmp, l + [x], r, v);
    } else {
      assert l + [x] + r == l + ([x] + r);
      UpperRankSplits(cmp, l, [x] + r, v);
    }
  }

  /** In an ascending sequence it is the rank of v, or one more if an equal value is there; what comes before
      is not above v, and the rest is. */
  lemma {:induction false} UpperRankSorted(cmp: Order, s: seq<Value>, v: Value)
    requires TotalOrder(cmp) && Sorted(cmp, s)
    ensures UpperRank(cmp, s, v) == Rank(cmp, s, v) + if Holds(cmp, s, v) then 1 else 0
    ensures forall i :: 0 <= i < |s| ==> (cmp(s[i], v) > 0 <==> i >= UpperRank(cmp, s, v))
  {
    if Holds(cmp, s, v) {
      var l, x, r := PartsAround(cmp, s, v);
      UpperRankMiddle(cmp, l, x, r, v);
    } else {
      var l, r := Parts(cmp, s, v);
      UpperRankSplits(cmp, l, r, v);
      RankSplits(cmp, l, r, v);
    }
  }

  /** Insertion keeps the order and adds exactly v. */
  lemma {:induction false} WithSorted(cmp: Order, s: seq<Value>, v: Value)
    requires TotalOrder(cmp) && Sorted(cmp, s) && !Holds(cmp, s, v)
    ensures Sorted(cmp, With(cmp, s, v)) && Holds(cmp, With(cmp, s, v), v)
    ensures multiset(With(cmp, s, v)) == multiset(s) + multiset{v}
  {
    var l, r := Parts(cmp, s, v);
    OneMore(cmp, l, r, v);
  }

  lemma {:induction false} OneMore(cmp: Order, l: seq<Value>, r: seq<Value>, v: Value)
    requires TotalOrder(cmp) && Sorted(cmp, l + r) && AllBelow(cmp, l, v) && AllAbove(cmp, r, v)
    ensures Sorted(cmp, l + [v] + r) && Holds(cmp, l + [v] + r, v)
    ensures multiset(l + [v] + r) == multiset(l + r) + multiset{v}
  {
    SortedSplit(cmp, l, r, v);
    assert (l + [v] + r)[|l|] == v && cmp(v, v) == 0;
  }

  /** Removal keeps the order and takes out exactly the element equal to v. */
  lemma {:induction false} WithoutSorted(cmp: Order, s: seq<Value>, v: Value)
    requires TotalOrder(cmp) && Sorted(cmp, s) && Holds(cmp, s, v)
    ensures Sorted(cmp, Without(cmp, s, v)) && !Holds(cmp, Without(cmp, s, v), v)
    ensures multiset(Without(cmp, s, v)) == multiset(s) - multiset{s[Rank(cmp, s, v)]}
  {
    var l, x, r := PartsAround(cmp, s, v);
    OneLess(cmp, l, x, r, v);
  }

  lemma {:induction false} OneLess(cmp: Order, l: seq<Value>, x: Value, r: seq<Value>, v: Value)
    requires Sorted(cmp, l + [x] + r) && AllBelow(cmp, l, v) && AllAbove(cmp, r, v)
    ensures Sorted(cmp, l + r) && !Holds(cmp, l + r, v)
    ensures multiset(l + r) == multiset(l + [x] + r) - multiset{x}
  {
    var s, w := l + [x] + r, l + r;
    assert forall i :: 0 <= i < |w| ==> w[i] == s[if i < |l| then i else i + 1];
  }

  /** What was inserted can be removed again, which gives the old contents. */
  lemma {:induction false} WithoutWith(cmp: Order, s: seq<Value>, v: Value)
    requires TotalOrder(cmp) && Sorted(cmp, s) && !Holds(cmp, s, v)
    ensures Without(cmp, With(cmp, s, v), v) == s
  {
    var l, r := Parts(cmp, s, v);
    SelfEqual(cmp, v);
    WithoutSplits(cmp, l, v, r, v);
  }

  lemma {:induction false} SelfEqual(cmp: Order, v: Value)
    requires TotalOrder(cmp)
    ensures cmp(v, v) == 0
  {
  }

  lemma {:induction false} RankMiddle(cmp: Order, l: seq<Value>, x: Value, r: seq<Value>, v: Value)
    requires AllBelow(cmp, l, v) && AllAbove(cmp, r, v)
    ensures Rank(cmp, l + [x] + r, v) == |l| + if cmp(x, v) < 0 then 1 else 0
    ensures Holds(cmp, l + [x] + r, v) <==> cmp(x, v) == 0
    ensures |l| < |l + [x] + r| && (l + [x] + r)[|l|] == x
  {
    if cmp(x, v) < 0 {
      RankSplits(cmp, l + [x], r, v);
    } else {
      assert l + [x] + r == l + ([x] + r);
      RankSplits(cmp, l, [x] + r, v);
    }
  }

  lemma {:induction false} Lengths(cmp: Order, s: seq<Value>, v: Value)
    requires TotalOrder(cmp) && Sorted(cmp, s)
    ensures |With(cmp, s, v)| == |s| + 1
    ensures Holds(cmp, s, v) ==> |Without(cmp, s, v)| == |s| - 1
  {
    RankSorted(cmp, s, v);
  }
}
