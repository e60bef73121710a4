/** The fixed-size memory pool: a freelist threaded through an array of link structures. */
module MemPool {
  import opened Arithmetic
  import opened Options

  /** What a pool is about: the free slots in the order of the freelist, and the slots handed out. */
  datatype Pool = Pool(free: seq<nat>, live: set<nat>)

  predicate NoDup(s: seq<nat>) {
    forall i, j :: 0 <= i < j < |s| ==> s[i] != s[j]
  }

  /** Each of the n slots is on the freelist, once, or handed out, and not both. */
  ghost predicate PoolOk(p: Pool, n: nat) {
    && NoDup(p.free)
    && forall k: nat :: (k in p.free || k in p.live <==> k < n) && !(k in p.free && k in p.live)
  }

  function Fresh(n: nat): Pool {
    Pool(seq(n, i => i), {})
  }

  function Allocated(p: Pool): Pool
    requires p.free != []
  {
    Pool(p.free[1..], p.live + {p.free[0]})
  }

  function Freed(p: Pool, k: nat): Pool {
    Pool([k] + p.free, p.live - {k})
  }

  // ---------- the freelist ----------

  /** Where the freelist goes on after position i; -1 is NULL. */
  function LinkAt(free: seq<nat>, i: nat): int {
    if i < |free| then free[i] else -1
  }

  /** The list that starts at head and follows the next links is `free`; it ends, so it has no cycle. */
  predicate Linked(next: seq<int>, head: int, free: seq<nat>) {
    && head == LinkAt(free, 0)
    && forall i :: 0 <= i < |free| ==> free[i] < |next| && next[free[i]] == LinkAt(free, i + 1)
  }

  lemma {:induction false} Unlinks(next: seq<int>, free: seq<nat>)
    requires free != [] && Linked(next, free[0], free)
    ensures Linked(next, next[free[0]], free[1..])
  {
    assert next[free[0]] == LinkAt(free, 1) == LinkAt(free[1..], 0);
    forall i | 0 <= i < |free[1..]|
      ensures free[1..][i] < |next| && next[free[1..][i]] == LinkAt(free[1..], i + 1)
    {
      assert free[1..][i] == free[i + 1];
    }
  }

  lemma {:induction false} Links(next: seq<int>, head: int, free: seq<nat>, k: nat)
    requires Linked(next, head, free) && k < |next| && k !in free
    ensures Linked(next[k := head], k, [k] + free)
  {
    var next1, free1 := next[k := head], [k] + free;
    forall i | 0 <= i < |free1|
      ensures free1[i] < |next1| && next1[free1[i]] == LinkAt(free1, i + 1)
    {
      if i > 0 { assert free1[i] == free[i - 1] != k; }
    }
  }

  // ---------- what the operations keep ----------

  lemma {:induction false} FreshOk(n: nat)
    ensures PoolOk(Fresh(n), n)
  {
    var p := Fresh(n);
    forall k: nat
      ensures k in p.free <==> k < n
    {
      if k < n { assert p.free[k] == k; }
    }
  }

  lemma {:induction false} AllocatedOk(p: Pool, n: nat)
    requires PoolOk(p, n) && p.free != []
    ensures PoolOk(Allocated(p), n) && p.free[0] !in p.live && p.free[0] < n
  {
    assert p.free == [p.free[0]] + p.free[1..];
    assert p.free[0] !in p.free[1..];
    assert p.free[0] in p.free;
    forall k: nat
      ensures k in p.free <==> k == p.free[0] || k in p.free[1..]
    {
    }
  }

  lemma {:induction false} FreedOk(p: Pool, n: nat, k: nat)
    requires PoolOk(p, n) && k in p.live
    ensures PoolOk(Freed(p, k), n)
  {
    assert forall x: nat :: x in [k] + p.free <==> x == k || x in p.free;
  }

  /** Freeing what was just allocated restores the pool, freelist order included; and the element freed
      last is the one allocated next. */
  lemma {:induction false} AllocFree(p: Pool, n: nat, k: nat)
    requires PoolOk(p, n)
    ensures p.free != [] ==> Freed(Allocated(p), p.free[0]) == p
    ensures k in p.live ==> Allocated(Freed(p, k)) == p
  {
    if p.free != [] {
      AllocatedOk(p, n);
      assert [p.free[0]] + p.free[1..] == p.free;
      assert p.live + {p.free[0]} - {p.free[0]} == p.live;
    }
    if k in p.live {
      assert ([k] + p.free)[1..] == p.free;
      assert p.live - {k} + {k} == p.live;
    }
  }

  // ---------- conservation ----------

  ghost function Slots(n: nat): (s: set<nat>)
    ensures forall k: nat :: k in s <==> k < n
    ensures |s| == n
  {
    if n == 0 then {} else Slots(n - 1) + {n - 1}
  }

  ghost function Elements(s: seq<nat>): set<nat> {
    set k | k in s
  }

  lemma {:induction false} ElementsSize(s: seq<nat>)
    requires NoDup(s)
    ensures |Elements(s)| == |s|
  {
    if s != [] {
      var r := s[..|s| - 1];
      ElementsSize(r);
      assert s == r + [s[|s| - 1]];
      assert Elements(s) == Elements(r) + {s[|s| - 1]};
    }
  }

  /** Free slots and elements in use always make up the whole pool. */
  lemma {:induction false} Conserved(p: Pool, n: nat)
    requires PoolOk(p, n)
    ensures |p.free| + |p.live| == n
  {
    ElementsSize(p.free);
    assert Elements(p.free) + p.live == Slots(n) && Elements(p.free) !! p.live;
  }

  // ---------- runs ----------

  datatype Op = Init | Alloc | Free(k: nat)

  function Apply(p: Pool, n: nat, op: Op): Pool {
    match op
    case Init => Fresh(n)
    case Alloc => if p.free == [] then p else Allocated(p)
    case Free(k) => Freed(p, k)
  }

  /** Free is called on elements that are currently allocated. */
  predicate Legal(p: Pool, n: nat, ops: seq<Op>)
    decreases |ops|
  {
    ops != [] ==> (ops[0].Free? ==> ops[0].k in p.live) && Legal(Apply(p, n, ops[0]), n, ops[1..])
  }

  function After(p: Pool, n: nat, ops: seq<Op>): Pool
    decreases |ops|
  {
    if ops == [] then p else After(Apply(p, n, ops[0]), n, ops[1..])
  }

  /** After any run the freelist has no element twice and none that is handed out, and nothing is lost. */
  lemma {:induction false} RunKeeps(p: Pool, ops: seq<Op>, n: nat)
    requires PoolOk(p, n) && Legal(p, n, ops)
    ensures PoolOk(After(p, n, ops), n)
    ensures |After(p, n, ops).free| + |After(p, n, ops).live| == n
    decreases |ops|
  {
    if ops == [] {
      Conserved(p, n);
    } else {
      match ops[0] {
        case Init => FreshOk(n);
        case Alloc => if p.free != [] { AllocatedOk(p, n); }
        case Free(k) => FreedOk(p, n, k);
      }
      RunKeeps(Apply(p, n, ops[0]), ops[1..], n);
    }
  }

  /** This many calls of alloc. */
  function Allocs(i: nat): seq<Op> {
    seq(i, _ => Alloc)
  }

  lemma {:induction false} OneMoreAlloc(p: Pool, n: nat, i: nat)
    ensures After(p, n, Allocs(i + 1)) == After(Apply(p, n, Alloc), n, Allocs(i))
  {
    assert Allocs(i + 1)[0] == Alloc && Allocs(i + 1)[1..] == Allocs(i);
  }

  /** Any number of allocations take that many elements from the front of the freelist. */
  lemma {:induction false} TakenFromFront(p: Pool, n: nat, i: nat)
    requires i <= |p.free|
    ensures After(p, n, Allocs(i)).free == p.free[i..]
    decreases i
  {
    if i > 0 {
      OneMoreAlloc(p, n, i - 1);
      TakenFromFront(Allocated(p), n, i - 1);
      assert p.free[1..][i - 1..] == p.free[i..];
    }
  }

  /** A new pool hands out its elements from the front: after i allocations element i is next, and after n of
      them there is none. */
  lemma {:induction false} HandsOutInOrder(p: Pool, n: nat, i: nat)
    requires i <= n
    ensures var free := After(Apply(p, n, Init), n, Allocs(i)).free;
            |free| == n - i && (i < n ==> free[0] == i)
  {
    TakenFromFront(Fresh(n), n, i);
  }

  // ---------- addresses ----------

  /** Byte b of the pool memory belongs to element k. */
  predicate Owns(k: nat, size: nat, b: nat) {
    k * size <= b < (k + 1) * size
  }

  /** Different elements never share a byte, and every element lies within the pool. */
  lemma {:induction false} BytesApart(j: nat, k: nat, n: nat, size: nat)
    requires j < n && k < n
    ensures j != k ==> forall b: nat :: !(Owns(j, size, b) && Owns(k, size, b))
    ensures forall b: nat :: Owns(j, size, b) ==> b < n * size
  {
    Times(j, n, size);
    Times(j, k, size);
    Times(k, j, size);
    Times(0, 1, size);
    assert (j + 1) * size == j * size + size && (k + 1) * size == k * size + size;
  }

  /** The index that free computes is the one alloc used. */
  lemma {:induction false} IndexRecovered(k: nat, size: nat)
    requires size > 0
    ensures (k * size) % size == 0 && (k * size) / size == k
  {
    SameQuotient(k * size, size, k, 0);
  }

  /** The element at this offset is number k: free recovers k from it, it lies within the pool, and it
      shares no byte with any element in use. */
  ghost predicate Usable(offset: nat, k: nat, live: set<nat>, n: nat, size: nat)
    requires size > 0
  {
    && offset == k * size && offset % size == 0 && offset / size == k
    && (forall b: nat | Owns(k, size, b) :: b < n * size)
    && (forall j, b: nat | j in live :: !(Owns(k, size, b) && Owns(j, size, b)))
  }

  lemma {:induction false} FreeIsUsable(p: Pool, n: nat, size: nat) returns (offset: nat)
    requires PoolOk(p, n) && p.free != [] && size > 0
    ensures offset == p.free[0] * size && Usable(offset, p.free[0], p.live, n, size)
  {
    var k := p.free[0];
    offset := k * size;
    AllocatedOk(p, n);
    IndexRecovered(k, size);
    BytesApart(k, k, n, size);
    forall j, b: nat | j in p.live
      ensures !(Owns(k, size, b) && Owns(j, size, b))
    {
      BytesApart(k, j, n, size);
    }
  }

  // ---------- the pool in memory ----------

  datatype Result = Ok | Invalid

  /** EtcPalMempoolDesc. A link is the index of the next structure, -1 for NULL. */
  class Desc {
    const elemSize: nat
    const poolSize: nat
    const list: array<int>
    var freelist: int
    var currentUsed: nat
    ghost var pool: Pool

    ghost predicate Valid()
      reads this, list
    {
      && elemSize > 0 && list.Length == poolSize
      && PoolOk(pool, poolSize)
      && Linked(list[..], freelist, pool.free)
      && currentUsed == |pool.live|
    }

    /** ETCPAL_MEMPOOL_DEFINE: not usable before Init. */
    constructor (elemSize: nat, poolSize: nat)
      ensures this.elemSize == elemSize && this.poolSize == poolSize && list.Length == poolSize && fresh(list)
      ensures freelist == -1 && currentUsed == 0
    {
      this.elemSize, this.poolSize := elemSize, poolSize;
      list := new int[poolSize];
      freelist, currentUsed := -1, 0;
    }

    method Init() returns (res: Result)
      requires elemSize > 0 && list.Length == poolSize
      modifies this, list
      ensures res == if poolSize == 0 then Invalid else Ok
      ensures res.Ok? ==> Valid() && pool == Apply(old(pool), poolSize, Op.Init)
      ensures res.Ok? ==> |pool.free| == poolSize && forall i :: 0 <= i < poolSize ==> pool.free[i] == i
      ensures res.Ok? ==> pool.live == {} && currentUsed == 0
      ensures res.Invalid? ==> unchanged(this) && unchanged(list)
    {
      if poolSize == 0 { return Invalid; }
      var i := 0;
      while i < poolSize - 1
        invariant 0 <= i <= poolSize - 1
        invariant forall k :: 0 <= k < i ==> list[k] == k + 1
      {
        list[i] := i + 1;
        i := i + 1;
      }
      list[i] := -1;
      freelist := 0;
      currentUsed := 0;
      pool := Fresh(poolSize);
      FreshOk(poolSize);
      return Ok;
    }

    /** The offset of a free element in the pool memory; nothing exactly when every element is in use. */
    method Alloc() returns (elem: Option<nat>)
      requires Valid()
      modifies this
      ensures Valid()
      ensures elem.None? <==> old(pool.live) == Slots(poolSize)
      ensures elem.None? ==> unchanged(this)
      ensures pool == Apply(old(pool), poolSize, Op.Alloc)
      ensures elem.Some? ==> old(pool.free) != []
      ensures elem.Some? ==> elem.value == old(pool.free[0]) * elemSize && pool.free == old(pool.free[1..])
      ensures elem.Some? ==> pool.live == old(pool.live) + {elem.value / elemSize}
      ensures elem.Some? ==> Usable(elem.value, old(pool.free[0]), old(pool.live), poolSize, elemSize)
      ensures currentUsed + |pool.free| == poolSize
    {
      elem := None;
      Conserved(pool, poolSize);
      var index := freelist;
      if index != -1 {
        AllocatedOk(pool, poolSize);
        Unlinks(list[..], pool.free);
        ghost var offset := FreeIsUsable(pool, poolSize, elemSize);
        freelist := list[index];
        elem := Some(index * elemSize);
        currentUsed := currentUsed + 1;
        pool := Allocated(pool);
      } else {
        assert pool.free == [];
      }
    }

    /** elem is the distance from the start of the pool memory. Outside the memory before it, or not at
        the start of an element, it is ignored; otherwise the element has to be in use. */
    method Free(elem: int)
      requires Valid()
      requires elem >= 0 && elem % elemSize == 0 ==> elem / elemSize in pool.live
      modifies this, list
      ensures Valid()
      ensures pool == if elem < 0 || elem % elemSize != 0 then old(pool)
                      else Apply(old(pool), poolSize, Op.Free(elem / elemSize))
      ensures elem >= 0 && elem % elemSize == 0 ==>
        pool.free == [elem / elemSize] + old(pool.free) && pool.live == old(pool.live) - {elem / elemSize}
      ensures currentUsed + |pool.free| == poolSize
    {
      Conserved(pool, poolSize);
      if elem >= 0 {
        if elem % elemSize == 0 {
          var index := elem / elemSize;
          FreedOk(pool, poolSize, index);
          Links(list[..], freelist, pool.free, index);
          list[index] := freelist;
          freelist := index;
          currentUsed := currentUsed - 1;
          pool := Freed(pool, index);
        }
      }
    }
  }
}
