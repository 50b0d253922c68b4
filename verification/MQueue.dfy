/** The queue of incoming messages (vm/mqueue.c): a ring that doubles when full. */
module MessageQueue {

  /** A message and the node it came from. */
  datatype Message = Message(id: int, length: int, bytes: seq<int>)

  /** `x & (n - 1)`, for a power of two `n` and `x` below twice that. */
  function Wrap(x: nat, n: nat): (r: nat)
    requires x < 2 * n
    ensures r < n
  {
    if x < n then x else x - n
  }

  /** The members of a ring of `count`, first one first. */
  function Ring(table: seq<Message>, firstfull: nat, count: nat): (r: seq<Message>)
    requires firstfull < |table| && count <= |table|
    ensures |r| == count && forall i :: 0 <= i < count ==> r[i] == table[Wrap(firstfull + i, |table|)]
  {
    seq(count, i requires 0 <= i < count => table[Wrap(firstfull + i, |table|)])
  }

  lemma RingInsert(table: seq<Message>, firstfull: nat, count: nat, m: Message)
    requires firstfull < |table| && count < |table|
    ensures Ring(table[Wrap(firstfull + count, |table|) := m], firstfull, count + 1) == Ring(table, firstfull, count) + [m]
  {
  }

  lemma RingRemove(table: seq<Message>, firstfull: nat, count: nat)
    requires 0 < count <= |table| && firstfull < |table|
    ensures Ring(table, firstfull, count) == [table[firstfull]] + Ring(table, Wrap(firstfull + 1, |table|), count - 1)
  {
  }

  /** A full ring unrolled into one twice as large holds the same messages: the
      part before `first` is repeated after the rest. */
  lemma RingExpand(table: seq<Message>, table': seq<Message>, first: nat)
    requires first < |table| && |table'| == 2 * |table|
    requires forall i :: 0 <= i < |table| ==> table'[i] == table[i]
    requires forall i :: 0 <= i < first ==> table'[|table| + i] == table[i]
    ensures Ring(table', first, |table|) == Ring(table, first, |table|)
  {
    var n := |table|;
    forall i | 0 <= i < n
      ensures Ring(table', first, n)[i] == Ring(table, first, n)[i]
    {
      if first + i >= n {
        assert table'[n + (first + i - n)] == table[first + i - n];
      }
    }
  }

  class MQueue {
    var table: array<Message>
    var size: nat
    var count: nat
    var firstfull: nat
    var firstempty: nat

    ghost predicate Valid()
      reads this, table
    {
      && size == table.Length > 0 && count <= size && firstfull < size
      && firstempty == Wrap(firstfull + count, size)
    }

    ghost function Contents(): seq<Message>
      reads this, table
      requires Valid()
    {
      Ring(table[..], firstfull, count)
    }

    ghost function Repr(): set<object>
      reads this
    {
      {this, table}
    }

    constructor ()
      ensures Valid() && Contents() == [] && fresh(Repr())
    {
      size, count, firstfull, firstempty := 16, 0, 0, 0;
      table := new Message[16](_ => Message(0, 0, []));
    }

    /** ExpandTable: the ring is full and starts where it ends. */
    method ExpandTable()
      requires Valid() && count == size
      modifies this`table, this`size, this`firstempty
      ensures Valid() && count < size && fresh(table) && Contents() == old(Contents())
    {
      ghost var old' := table[..];
      var oldTableSize := size;
      var bigger := new Message[2 * size](_ => Message(0, 0, []));
      var i := 0;
      while i < oldTableSize
        invariant 0 <= i <= oldTableSize == |old'| == table.Length && table[..] == old' && fresh(bigger) && bigger.Length == 2 * oldTableSize
        invariant size == oldTableSize && firstempty == firstfull < size
        invariant forall k :: 0 <= k < i ==> bigger[k] == old'[k]
      {
        bigger[i] := table[i];
        i := i + 1;
      }
      table := bigger;
      size := 2 * size;
      i := 0;
      while i < firstempty
        invariant 0 <= i <= firstempty == firstfull < oldTableSize == |old'| && table == bigger && size == table.Length == 2 * oldTableSize
        invariant forall k :: 0 <= k < oldTableSize ==> table[k] == old'[k]
        invariant forall k :: 0 <= k < i ==> table[oldTableSize + k] == old'[k]
        invariant count == old(count) && firstfull == old(firstfull)
      {
        table[oldTableSize + i] := table[i];
        i := i + 1;
      }
      firstempty := firstempty + oldTableSize;
      RingExpand(old', table[..], firstfull);
    }

    /** MQueueInsert. */
    method Insert(id: int, length: int, bytes: seq<int>)
      requires Valid()
      modifies Repr()
      ensures Valid() && fresh(Repr() - old(Repr())) && Contents() == old(Contents()) + [Message(id, length, bytes)]
    {
      hide Ring;
      if count >= size {
        ExpandTable();
      }
      ghost var t := table[..];
      RingInsert(t, firstfull, count, Message(id, length, bytes));
      table[firstempty] := Message(id, length, bytes);
      assert table[..] == t[firstempty := Message(id, length, bytes)];
      count := count + 1;
      firstempty := Wrap(firstempty + 1, size);
    }

    /** MQueueRemove. */
    method Remove() returns (m: Message)
      requires Valid() && count > 0
      modifies this`firstfull, this`count
      ensures Valid() && m == old(Contents())[0] && Contents() == old(Contents())[1..]
    {
      RingRemove(table[..], firstfull, count);
      m := table[firstfull];
      firstfull := Wrap(firstfull + 1, size);
      count := count - 1;
    }
  }
}
