/** The circular buffer of a queue: what push and pop do while they hold the lock. */
module QueueRing {
  import opened Arithmetic

  /** One element, `element_size` bytes. */
  type Item(0, ==, !new)

  datatype Ring = Ring(slots: seq<Item>, head: nat, tail: nat, size: nat)

  /** Room for max elements, one slot more than that, and head size places after tail. */
  predicate RingOk(r: Ring, max: nat) {
    && |r.slots| == max + 1 && r.size <= max
    && r.tail <= max && r.head == Slot(r.tail, r.size, max + 1)
  }

  /** The slot i places after `tail`, going around once at most. */
  function Slot(tail: nat, i: nat, n: nat): (k: nat)
    ensures tail < n && i <= n ==> k < n
  {
    if tail + i < n then tail + i else tail + i - n
  }

  predicate InBounds(r: Ring) {
    r.head < |r.slots| && r.tail < |r.slots| && r.size <= |r.slots|
  }

  /** The elements from tail to head. */
  function Content(r: Ring): (s: seq<Item>)
    requires InBounds(r)
    ensures |s| == r.size
    ensures forall i :: 0 <= i < r.size ==> s[i] == r.slots[Slot(r.tail, i, |r.slots|)]
  {
    seq(r.size, i requires 0 <= i < r.size => r.slots[Slot(r.tail, i, |r.slots|)])
  }

  function Empty(slots: seq<Item>): Ring { Ring(slots, 0, 0, 0) }

  function Stored(r: Ring, x: Item): Ring
    requires r.head < |r.slots|
  {
    Ring(r.slots[r.head := x], Slot(r.head, 1, |r.slots|), r.tail, r.size + 1)
  }

  function Taken(r: Ring): Ring
    requires r.slots != [] && r.size > 0
  {
    Ring(r.slots, r.head, Slot(r.tail, 1, |r.slots|), r.size - 1)
  }

  /** The modulus of the code does the same. */
  lemma {:induction false} Wraps(tail: nat, i: nat, n: nat)
    requires tail < n && i <= n
    ensures (tail + i) % n == Slot(tail, i, n)
  {
    if tail + i < n {
      SameQuotient(tail + i, n, 0, tail + i);
    } else {
      SameQuotient(tail + i, n, 1, tail + i - n);
    }
  }

  lemma {:induction false} StoredKeeps(r: Ring, max: nat, x: Item)
    requires RingOk(r, max) && r.size < max
    ensures InBounds(r) && RingOk(Stored(r, x), max) && InBounds(Stored(r, x))
    ensures Content(Stored(r, x)) == Content(r) + [x]
  {
  }

  lemma {:induction false} TakenKeeps(r: Ring, max: nat)
    requires RingOk(r, max) && r.size > 0
    ensures InBounds(r) && RingOk(Taken(r), max) && InBounds(Taken(r))
    ensures Content(r) == [r.slots[r.tail]] + Content(Taken(r))
  {
    var c, c1 := Content(r), Content(Taken(r));
    assert forall i :: 0 <= i < |c1| ==> c1[i] == c[i + 1];
  }

  /** The fields of etcpal_queue_t that the lock protects. */
  class Buffer {
    var nodeList: array<Item>
    var head: nat
    var tail: nat
    var queueSize: nat
    const maxQueueSize: nat

    predicate Valid()
      reads this, nodeList
    {
      RingOk(Value(), maxQueueSize)
    }

    function Value(): Ring
      reads this, nodeList
    {
      Ring(nodeList[..], head, tail, queueSize)
    }

    constructor (size: nat)
      ensures Valid() && InBounds(Value()) && Content(Value()) == [] && maxQueueSize == size && fresh(nodeList)
    {
      maxQueueSize := size;
      nodeList := new Item[size + 1];
      head, tail, queueSize := 0, 0, 0;
    }

    /** push_data_timed between lock and unlock */
    method Push(x: Item)
      requires Valid() && queueSize < maxQueueSize
      modifies this, nodeList
      ensures nodeList == old(nodeList) && Valid() && InBounds(Value()) && old(InBounds(Value()))
      ensures Value() == Stored(old(Value()), x)
      ensures Content(Value()) == old(Content(Value())) + [x]
    {
      StoredKeeps(Value(), maxQueueSize, x);
      Wraps(head, 1, maxQueueSize + 1);
      nodeList[head] := x;
      head := head + 1;
      head := head % (maxQueueSize + 1);
      queueSize := queueSize + 1;
    }

    /** pop_data_timed between lock and unlock */
    method Pop() returns (x: Item)
      requires Valid() && queueSize > 0
      modifies this
      ensures nodeList == old(nodeList) && Valid() && InBounds(Value()) && old(InBounds(Value()))
      ensures Value() == Taken(old(Value()))
      ensures old(Content(Value())) == [x] + Content(Value())
    {
      TakenKeeps(Value(), maxQueueSize);
      Wraps(tail, 1, maxQueueSize + 1);
      x := nodeList[tail];
      tail := tail + 1;
      tail := tail % (maxQueueSize + 1);
      queueSize := queueSize - 1;
    }

    /** etcpal_queue_is_empty */
    method IsEmpty() returns (empty: bool)
      requires Valid() && InBounds(Value())
      ensures empty <==> Content(Value()) == []
    {
      empty := queueSize == 0;
    }

    /** etcpal_queue_is_full */
    method IsFull() returns (full: bool)
      requires Valid() && InBounds(Value())
      ensures full <==> |Content(Value())| == maxQueueSize
    {
      full := queueSize == maxQueueSize;
    }

    /** etcpal_queue_slots_used */
    method SlotsUsed() returns (n: nat)
      requires Valid() && InBounds(Value())
      ensures n == |Content(Value())|
    {
      n := queueSize;
    }

    /** etcpal_queue_slots_available */
    method SlotsAvailable() returns (n: nat)
      requires Valid() && InBounds(Value())
      ensures n + |Content(Value())| == maxQueueSize
    {
      n := maxQueueSize - queueSize;
    }

    /** The end of etcpal_queue_reset */
    method Reset()
      requires Valid()
      modifies this
      ensures nodeList == old(nodeList) && Valid() && InBounds(Value()) && old(InBounds(Value()))
      ensures Value() == Empty(old(Value()).slots) && Content(Value()) == []
    {
      queueSize := 0;
      tail := 0;
      head := 0;
    }
  }
}
