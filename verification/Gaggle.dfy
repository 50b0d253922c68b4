/** Replicated member lists of gaggles (vm/gaggle.c). */
module GaggleLists {

  /** An object identifier. */
  datatype OID = OID(ipaddress: int, port: int, epoch: int, seqNo: int)

  /** ltOID. */
  predicate Less(a: OID, b: OID) {
    if a.ipaddress < b.ipaddress then true
    else if a.ipaddress > b.ipaddress then false
    else if a.port < b.port then true
    else if a.port > b.port then false
    else if a.epoch < b.epoch then true
    else if a.epoch > b.epoch then false
    else a.seqNo < b.seqNo
  }

  /** It is a strict total order. */
  lemma LessOrder(a: OID, b: OID, c: OID)
    ensures !Less(a, a) && (Less(a, b) || Less(b, a) || a == b) && (Less(a, b) ==> !Less(b, a))
    ensures Less(a, b) && Less(b, c) ==> Less(a, c)
  {
  }

  /** The first component in which two identifiers differ decides: address,
      port, epoch, number, the lower one first. */
  lemma LessMeans(a: OID, b: OID)
    ensures a.ipaddress < b.ipaddress ==> Less(a, b) && !Less(b, a)
    ensures a.ipaddress == b.ipaddress && a.port < b.port ==> Less(a, b) && !Less(b, a)
    ensures a.ipaddress == b.ipaddress && a.port == b.port && a.epoch < b.epoch ==> Less(a, b) && !Less(b, a)
    ensures a.ipaddress == b.ipaddress && a.port == b.port && a.epoch == b.epoch ==> (Less(a, b) <==> a.seqNo < b.seqNo)
  {
  }

  /** So a sorted list goes up in addresses, in ports within an address, and so on. */
  lemma SortedGoesUp(list: seq<OID>, i: nat, j: nat)
    requires Sorted(list) && i < j < |list|
    ensures list[i].ipaddress <= list[j].ipaddress
    ensures list[i].ipaddress == list[j].ipaddress ==> list[i].port <= list[j].port
    ensures list[i].ipaddress == list[j].ipaddress && list[i].port == list[j].port ==> list[i].epoch <= list[j].epoch
    ensures list[i].(seqNo := 0) == list[j].(seqNo := 0) ==> list[i].seqNo < list[j].seqNo
  {
    assert Less(list[i], list[j]);
  }

  /** Sorted, without repetitions. */
  ghost predicate Sorted(list: seq<OID>) {
    forall i, j :: 0 <= i < j < |list| ==> Less(list[i], list[j])
  }

  /** How many members from the front are less than `x`. */
  function Place(list: seq<OID>, x: OID): (r: nat)
    ensures r <= |list|
  {
    if list == [] || !Less(list[0], x) then 0 else 1 + Place(list[1..], x)
  }

  /** In a sorted list they are just the members less than `x`. */
  lemma {:induction false} PlaceSplits(list: seq<OID>, x: OID)
    requires Sorted(list)
    ensures forall i :: 0 <= i < |list| ==> (i < Place(list, x) <==> Less(list[i], x))
    decreases |list|
  {
    if list != [] {
      assert Sorted(list[1..]);
      PlaceSplits(list[1..], x);
      forall i | 0 <= i < |list|
        ensures i < Place(list, x) <==> Less(list[i], x)
      {
        if i > 0 {
          assert list[1..][i - 1] == list[i] && Less(list[0], list[i]);
          LessOrder(list[0], list[i], x);
        }
      }
    }
  }

  function Spliced<T>(s: seq<T>, x: T, p: nat): seq<T>
    requires p <= |s|
  {
    s[..p] + [x] + s[p..]
  }

  /** The list with `x` added in its place, unless it is there. */
  function Added(list: seq<OID>, x: OID): seq<OID> {
    if x in list then list else Spliced(list, x, Place(list, x))
  }

  function Removed(list: seq<OID>, x: OID): seq<OID> {
    if list == [] then [] else if list[0] == x then list[1..] else [list[0]] + Removed(list[1..], x)
  }

  lemma AddedSorted(list: seq<OID>, x: OID)
    requires Sorted(list)
    ensures Sorted(Added(list, x)) && forall m :: m in Added(list, x) <==> m in list || m == x
  {
    PlaceSplits(list, x);
    var p, list' := Place(list, x), Added(list, x);
    if x !in list {
      forall i, j | 0 <= i < j < |list'|
        ensures Less(list'[i], list'[j])
      {
        LessOrder(x, list'[j], list'[i]);
      }
      assert list == list[..p] + list[p..];
    }
  }

  lemma {:induction false} RemovedSorted(list: seq<OID>, x: OID)
    requires Sorted(list)
    ensures Sorted(Removed(list, x)) && forall m :: m in Removed(list, x) <==> m in list && m != x
    decreases |list|
  {
    if list != [] {
      assert Sorted(list[1..]);
      forall m | m in list[1..]
        ensures m != list[0] && Less(list[0], m)
      {
        LessOrder(list[0], list[0], list[0]);
      }
      RemovedSorted(list[1..], x);
      var rest := Removed(list[1..], x);
      assert list == [list[0]] + list[1..];
      assert forall i :: 0 <= i < |rest| ==> rest[i] in rest;
    }
  }

  /** A sorted list is determined by its members. */
  lemma {:induction false} SortedUnique(a: seq<OID>, b: seq<OID>)
    requires Sorted(a) && Sorted(b) && forall m :: m in a <==> m in b
    ensures a == b
    decreases |a|
  {
    if a == [] {
      if b != [] {
        HasMember(b);
      }
    } else {
      SameFirst(a, b);
      assert Sorted(a[1..]) && Sorted(b[1..]);
      forall m
        ensures m in a[1..] <==> m in b[1..]
      {
        RestMembers(a, m);
        RestMembers(b, m);
      }
      SortedUnique(a[1..], b[1..]);
      assert a == [a[0]] + a[1..] && b == [b[0]] + b[1..];
    }
  }

  lemma HasMember(b: seq<OID>)
    requires b != []
    ensures exists m :: m in b
  {
    var m := b[0];
    assert m in b;
  }

  lemma RestMembers(a: seq<OID>, m: OID)
    requires Sorted(a) && a != []
    ensures m in a[1..] <==> m in a && m != a[0]
  {
    LessOrder(a[0], a[0], a[0]);
    assert a == [a[0]] + a[1..];
    if m in a[1..] {
      var i :| 0 <= i < |a[1..]| && a[1..][i] == m;
      assert Less(a[0], a[i + 1]);
    }
  }

  lemma FirstLeast(a: seq<OID>, m: OID)
    requires Sorted(a) && m in a
    ensures a != [] && (m == a[0] || Less(a[0], m))
  {
  }

  lemma SameFirst(a: seq<OID>, b: seq<OID>)
    requires Sorted(a) && Sorted(b) && a != [] && forall m :: m in a <==> m in b
    ensures b != [] && a[0] == b[0]
  {
    assert a[0] in a && a[0] in b;
    FirstLeast(b, a[0]);
    assert b[0] in b && b[0] in a;
    FirstLeast(a, b[0]);
    LessOrder(a[0], b[0], a[0]);
  }

  /** A replica after additions, first one first. */
  function AddAll(list: seq<OID>, xs: seq<OID>): seq<OID>
    decreases |xs|
  {
    if xs == [] then list else AddAll(Added(list, xs[0]), xs[1..])
  }

  lemma {:induction false} AddAllSorted(list: seq<OID>, xs: seq<OID>)
    requires Sorted(list)
    ensures Sorted(AddAll(list, xs)) && forall m :: m in AddAll(list, xs) <==> m in list || m in xs
    decreases |xs|
  {
    hide Added, Sorted;
    if xs != [] {
      AddedSorted(list, xs[0]);
      AddAllSorted(Added(list, xs[0]), xs[1..]);
      assert xs == [xs[0]] + xs[1..];
    }
  }

  /** Replicas that received the same additions, in any order and with repeats,
      are equal. */
  lemma ReplicasAgree(list: seq<OID>, xs: seq<OID>, ys: seq<OID>)
    requires Sorted(list) && forall m :: m in xs <==> m in ys
    ensures AddAll(list, xs) == AddAll(list, ys) && Sorted(AddAll(list, xs))
  {
    AddAllSorted(list, xs);
    AddAllSorted(list, ys);
    SortedUnique(AddAll(list, xs), AddAll(list, ys));
  }

  /** The nodes an update is sent to: all others that are up. */
  function Recipients(nodes: seq<int>, up: set<int>, self: int): seq<int> {
    if nodes == [] then []
    else if nodes[0] != self && nodes[0] in up then [nodes[0]] + Recipients(nodes[1..], up, self)
    else Recipients(nodes[1..], up, self)
  }

  lemma {:induction false} RecipientsAre(nodes: seq<int>, up: set<int>, self: int)
    ensures forall n :: n in Recipients(nodes, up, self) <==> n in nodes && n in up && n != self
    ensures |Recipients(nodes, up, self)| <= |nodes|
    decreases |nodes|
  {
    if nodes != [] {
      RecipientsAre(nodes[1..], up, self);
      assert nodes == [nodes[0]] + nodes[1..];
    }
  }

  /** A member of the linked list. */
  class GNode {
    var gmember: OID
    var next: GNode?

    constructor (m: OID, next: GNode?)
      ensures gmember == m && this.next == next
    {
      gmember, this.next := m, next;
    }
  }

  /** The cell at a position; past the end there is none. */
  ghost function CellAt(cells: seq<GNode>, i: nat): GNode? {
    if i < |cells| then cells[i] else null
  }

  /** One node's replica of a gaggle's member list. */
  class Gaggle {
    var first: GNode?
    ghost var cells: seq<GNode>
    ghost var members: seq<OID>

    ghost predicate Valid()
      reads this, cells
    {
      Listed() && Sorted(members)
    }

    /** The cells are linked in order and hold the members. */
    ghost predicate Listed()
      reads this, cells
    {
      && |members| == |cells|
      && first == CellAt(cells, 0)
      && (forall i, j :: 0 <= i < j < |cells| ==> cells[i] != cells[j])
      && (forall i :: 0 <= i < |cells| ==> cells[i].gmember == members[i])
      && (forall i :: 0 <= i < |cells| ==> cells[i].next == CellAt(cells, i + 1))
    }

    constructor ()
      ensures Valid() && members == []
    {
      first, cells, members := null, [], [];
    }

    /** add_gmember. */
    method Add(x: OID)
      requires Valid()
      modifies this, cells
      ensures Valid() && members == Added(old(members), x) && forall c :: c in cells ==> c in old(cells) || fresh(c)
      ensures forall m :: m in members <==> m in old(members) || m == x
    {
      hide Listed, Sorted, Less, Place;
      PlaceSplits(members, x);
      AddedSorted(members, x);
      SameLength();
      var previous, exists' := FindPlace(x);
      if !exists' {
        if previous == null {
          InsertFirst(x);
        } else {
          InsertAfter(previous, x, Place(members, x));
        }
      }
    }

    lemma SameLength()
      requires Valid()
      ensures |cells| == |members| && (first == null <==> |cells| == 0)
    {
    }

    /** The walk of add_gmember: the last member less than `x`, unless `x` is there. */
    method FindPlace(x: OID) returns (previous: GNode?, found: bool)
      requires Valid()
      ensures found <==> x in members
      ensures !found ==> previous == CellBefore(cells, Place(members, x))
    {
      hide Listed, Sorted, Less, Place;
      PlaceSplits(members, x);
      SameLength();
      FirstCell();
      var value: GNode? := first;
      previous, found := null, false;
      ghost var i, p, k := 0, Place(members, x), 0;
      while value != null
        invariant 0 <= i <= |cells| && value == CellAt(cells, i) && !found && forall j :: 0 <= j < i ==> members[j] != x
        invariant k == (if i < p then i else p) && previous == CellBefore(cells, k)
        decreases |cells| - i
      {
        Cell(i);
        assert i < p <==> Less(members[i], x);
        if value.gmember == x {
          found := true;
          return;
        } else if Less(value.gmember, x) {
          previous := value;
          k := k + 1;
        }
        value := value.next;
        i := i + 1;
      }
    }

    lemma FirstCell()
      requires Listed()
      ensures first == CellAt(cells, 0)
    {
    }

    lemma Cell(i: nat)
      requires Listed() && i < |cells|
      ensures i < |members| && cells[i].gmember == members[i] && cells[i].next == CellAt(cells, i + 1) && CellBefore(cells, i + 1) == cells[i]
    {
    }

    static ghost function CellBefore(cells: seq<GNode>, i: nat): GNode? {
      if i == 0 then null else CellAt(cells, i - 1)
    }

    method InsertFirst(x: OID)
      requires Listed()
      modifies this
      ensures Listed() && members == Spliced(old(members), x, 0)
      ensures forall c :: c in cells ==> c in old(cells) || fresh(c)
    {
      hide Spliced, CellAt;
      var temp := new GNode(x, first);
      ghost var was := cells;
      first := temp;
      SplicedAt(cells, temp, 0);
      SplicedAt(members, x, 0);
      SplicedDistinct(cells, temp, 0);
      FirstOf(Spliced(cells, temp, 0));
      cells, members := Spliced(cells, temp, 0), Spliced(members, x, 0);
      forall i | 0 <= i < |cells|
        ensures cells[i].gmember == members[i] && cells[i].next == CellAt(cells, i + 1)
      {
        SplicedNext(was, temp, 0, i);
      }
    }

    static lemma FirstOf(cells: seq<GNode>)
      ensures CellAt(cells, 0) == if cells == [] then null else cells[0]
    {
    }

    method InsertAfter(previous: GNode, x: OID, ghost p: nat)
      requires Listed() && 0 < p <= |cells| && previous == cells[p - 1]
      modifies this, cells
      ensures Listed() && |old(members)| == |old(cells)| && members == Spliced(old(members), x, p)
      ensures forall c :: c in cells ==> c in old(cells) || fresh(c)
    {
      hide Spliced, CellAt;
      ghost var was := cells;
      var temp := LinkIn(previous, x);
      SplicedAt(cells, temp, p);
      SplicedAt(members, x, p);
      SplicedDistinct(cells, temp, p);
      FirstOf(cells);
      FirstOf(Spliced(cells, temp, p));
      cells, members := Spliced(cells, temp, p), Spliced(members, x, p);
      forall i | 0 <= i < |cells|
        ensures cells[i].gmember == members[i] && cells[i].next == CellAt(cells, i + 1)
      {
        SplicedNext(was, temp, p, i);
        SplicedNext(was, temp, p, p - 1);
      }
    }

    /** What follows the cell at `i` once `x` is spliced in. */
    static lemma SplicedNext(cells: seq<GNode>, x: GNode, p: nat, i: nat)
      requires p <= |cells| && i <= |cells|
      ensures CellAt(Spliced(cells, x, p), i + 1) == if i + 1 < p then CellAt(cells, i + 1) else if i + 1 == p then x else CellAt(cells, i)
    {
      SplicedAt(cells, x, p);
    }

    static method LinkIn(previous: GNode, x: OID) returns (temp: GNode)
      modifies previous
      ensures fresh(temp) && temp.gmember == x && temp.next == old(previous.next)
      ensures previous.next == temp && previous.gmember == old(previous.gmember)
    {
      temp := new GNode(x, previous.next);
      previous.next := temp;
    }

    static lemma SplicedAt<T>(s: seq<T>, x: T, p: nat)
      requires p <= |s|
      ensures |Spliced(s, x, p)| == |s| + 1 && Spliced(s, x, p)[p] == x
      ensures forall i :: 0 <= i < p ==> Spliced(s, x, p)[i] == s[i]
      ensures forall i :: p < i <= |s| ==> Spliced(s, x, p)[i] == s[i - 1]
      ensures forall c :: c in Spliced(s, x, p) ==> c in s || c == x
    {
    }

    static lemma SplicedDistinct(s: seq<GNode>, x: GNode, p: nat)
      requires p <= |s| && x !in s && forall i, j :: 0 <= i < j < |s| ==> s[i] != s[j]
      ensures forall i, j :: 0 <= i < j < |Spliced(s, x, p)| ==> Spliced(s, x, p)[i] != Spliced(s, x, p)[j]
    {
      SplicedAt(s, x, p);
    }

    /** delete_gmember: the member is taken out if it is there, and then the
        other nodes that are up are told. */
    method Delete(x: OID, nodes: seq<int>, up: set<int>, self: int) returns (told: seq<int>)
      requires Valid()
      modifies this, cells
      ensures Valid() && members == Removed(old(members), x) && |cells| <= |old(cells)|
      ensures forall m :: m in members <==> m in old(members) && m != x
      ensures told == if x in old(members) then Recipients(nodes, up, self) else []
      ensures forall n :: n in told <==> x in old(members) && n in nodes && n in up && n != self
    {
      RemovedSorted(members, x);
      told := [];
      var found := TakeOut(x);
      if found {
        ghost var at;
        told, at := SendGaggleUpdate(nodes, up, self);
      }
    }

    /** The cell of a member is unlinked. */
    method TakeOut(x: OID) returns (found: bool)
      requires Valid()
      modifies this, cells
      ensures Valid() && members == Removed(old(members), x) && (found <==> x in old(members)) && |cells| <= |old(cells)|
    {
      found := false;
      hide Listed, Sorted, Less, Removed;
      RemovedSorted(members, x);
      SameLength();
      FirstCell();
      if first == null {
        RemovedNone(members, x);
        return;
      }
      Cell(0);
      if first.gmember == x {
        found := true;
        assert members[0] in members;
        RemovedAt(members, x, 0);
        DropFirst();
        return;
      }
      ghost var i;
      var value;
      value, i := FindBefore(x);
      if value != null {
        found := true;
        assert members[i + 1] in members;
        RemovedAt(members, x, i + 1);
        DropAfter(value, i);
      } else {
        RemovedNone(members, x);
      }
    }

    /** The walk of delete_gmember: the cell before that of `x`. */
    method FindBefore(x: OID) returns (value: GNode?, ghost i: nat)
      requires Valid() && first != null && first.gmember != x
      ensures |members| == |cells|
      ensures value != null ==> i + 1 < |cells| && value == cells[i] && members[i + 1] == x && x !in members[..i + 1]
      ensures value == null ==> x !in members
    {
      hide Listed, Sorted, Less, CellAt;
      SameLength();
      FirstCell();
      FirstOf(cells);
      Cell(0);
      value := first;
      i := 0;
      assert members[..1] == [members[0]];
      while value.next != null
        invariant 0 <= i < |cells| && value == cells[i] && x !in members[..i + 1]
        decreases |cells| - i
      {
        Cell(i);
        NextOf(cells, i);
        Cell(i + 1);
        assert members[..i + 2] == members[..i + 1] + [members[i + 1]];
        if value.next.gmember == x {
          return;
        }
        value := value.next;
        i := i + 1;
      }
      Cell(i);
      NextOf(cells, i);
      assert members[..i + 1] == members;
      value := null;
    }

    method DropFirst()
      requires Listed() && first != null
      modifies this
      ensures Listed() && |old(cells)| > 0 && members == old(members)[..0] + old(members)[1..] && cells == old(cells)[1..]
    {
      assert first.next == CellAt(cells, 1);
      first := first.next;
      cells, members := cells[1..], members[1..];
    }

    method DropAfter(value: GNode, ghost i: nat)
      requires Listed() && i + 1 < |cells| && value == cells[i]
      modifies this, cells
      ensures Listed() && members == old(members)[..i + 1] + old(members)[i + 2..] && cells == old(cells)[..i + 1] + old(cells)[i + 2..]
    {
      hide CellAt, Dropped;
      ghost var was := cells;
      DroppedAt(cells, i + 1);
      DroppedAt(members, i + 1);
      NextOf(cells, i);
      NextOf(cells, i + 1);
      value.next := value.next.next;
      FirstOf(cells);
      FirstOf(Dropped(cells, i + 1));
      cells, members := Dropped(cells, i + 1), Dropped(members, i + 1);
      forall j | 0 <= j < |cells|
        ensures cells[j].gmember == members[j] && cells[j].next == CellAt(cells, j + 1)
      {
        DroppedNext(was, i + 1, j);
      }
    }

    static function Dropped<T>(s: seq<T>, p: nat): seq<T>
      requires p < |s|
    {
      s[..p] + s[p + 1..]
    }

    static lemma DroppedAt<T>(s: seq<T>, p: nat)
      requires p < |s|
      ensures |Dropped(s, p)| == |s| - 1 && Dropped(s, p) == s[..p] + s[p + 1..]
      ensures forall j :: 0 <= j < p ==> Dropped(s, p)[j] == s[j]
      ensures forall j :: p <= j < |s| - 1 ==> Dropped(s, p)[j] == s[j + 1]
    {
    }

    static lemma NextOf(cells: seq<GNode>, i: nat)
      ensures CellAt(cells, i + 1) == if i + 1 < |cells| then cells[i + 1] else null
    {
    }

    /** What follows the cell at `j` once the one at `p` is dropped. */
    static lemma DroppedNext(cells: seq<GNode>, p: nat, j: nat)
      requires p < |cells|
      ensures CellAt(Dropped(cells, p), j + 1) == if j + 1 < p then CellAt(cells, j + 1) else CellAt(cells, j + 2)
    {
      DroppedAt(cells, p);
    }

    static lemma {:induction false} RemovedAt(list: seq<OID>, x: OID, i: nat)
      requires i < |list| && list[i] == x && x !in list[..i]
      ensures Removed(list, x) == list[..i] + list[i + 1..]
      decreases i
    {
      if i > 0 {
        assert list[..i] == [list[0]] + list[1..][..i - 1];
        RemovedAt(list[1..], x, i - 1);
      }
    }

    static lemma {:induction false} RemovedNone(list: seq<OID>, x: OID)
      requires x !in list
      ensures Removed(list, x) == list
      decreases |list|
    {
      if list != [] {
        RemovedNone(list[1..], x);
      }
    }

    /** sendGaggleUpdate: a message to every other node that is up, one for each
        time it is listed and in that order; `at` says where. */
    static method SendGaggleUpdate(nodes: seq<int>, up: set<int>, self: int) returns (told: seq<int>, ghost at: seq<nat>)
      ensures told == Recipients(nodes, up, self)
      ensures |at| == |told| && forall k :: 0 <= k < |at| ==> at[k] < |nodes| && nodes[at[k]] == told[k]
      ensures forall k, l :: 0 <= k < l < |at| ==> at[k] < at[l]
      ensures forall i :: 0 <= i < |nodes| ==> (i in at <==> nodes[i] != self && nodes[i] in up)
      ensures forall n :: n in told <==> n in nodes && n in up && n != self
    {
      told, at := [], [];
      var i := 0;
      assert nodes[0..] == nodes;
      while i < |nodes|
        invariant 0 <= i <= |nodes| && told + Recipients(nodes[i..], up, self) == Recipients(nodes, up, self)
        invariant |at| == |told| && forall k :: 0 <= k < |at| ==> at[k] < i && nodes[at[k]] == told[k]
        invariant forall k, l :: 0 <= k < l < |at| ==> at[k] < at[l]
        invariant forall j :: 0 <= j < i ==> (j in at <==> nodes[j] != self && nodes[j] in up)
      {
        assert nodes[i..][0] == nodes[i] && nodes[i..][1..] == nodes[i + 1..];
        if nodes[i] != self && nodes[i] in up {
          told, at := told + [nodes[i]], at + [i];
        }
        i := i + 1;
      }
      RecipientsAre(nodes, up, self);
    }
  }
}

/** The flood that a deletion starts, over reliable channels. */
module GaggleFlood {
  import opened GaggleLists

  /** Every node's replica, and the delete messages for `dead` under way, by
      recipient; `nodes` is every node's list of nodes. */
  datatype Net = Net(lists: map<int, seq<OID>>, flying: seq<int>, nodes: seq<int>, up: set<int>, dead: OID)

  ghost predicate Sound(s: Net) {
    && (forall n :: n in s.up ==> n in s.lists && n in s.nodes)
    && (forall i :: 0 <= i < |s.flying| ==> s.flying[i] in s.up)
    && (forall n :: n in s.lists ==> Sorted(s.lists[n]))
  }

  /** Node `n` handles a deletion (delete_gmember): it forwards it only if it had
      the member. */
  function Handle(s: Net, n: int): Net {
    if n in s.lists && s.dead in s.lists[n] then
      s.(lists := s.lists[n := Removed(s.lists[n], s.dead)], flying := s.flying + Recipients(s.nodes, s.up, n))
    else s
  }

  /** The `i`th message under way arrives. */
  function Deliver(s: Net, i: nat): Net
    requires i < |s.flying|
  {
    Handle(s.(flying := s.flying[..i] + s.flying[i + 1..]), s.flying[i])
  }

  /** Messages arrive in any order: `picks` says which comes next. */
  function Run(s: Net, picks: seq<nat>): Net
    decreases |picks|
  {
    if picks == [] || picks[0] >= |s.flying| then s else Run(Deliver(s, picks[0]), picks[1..])
  }

  /** Every pick is of a message under way. */
  ghost predicate Possible(s: Net, picks: seq<nat>)
    decreases |picks|
  {
    picks == [] || (picks[0] < |s.flying| && Possible(Deliver(s, picks[0]), picks[1..]))
  }

  /** Whoever still lists the member has a message coming. */
  ghost predicate Covered(s: Net) {
    forall n :: n in s.up && n in s.lists && s.dead in s.lists[n] ==> n in s.flying
  }

  /** Once one node that is up has started the flood, everybody is covered. */
  lemma StartCovered(s: Net, origin: int)
    requires Sound(s) && origin in s.up && s.flying == [] && s.dead in s.lists[origin]
    ensures Sound(Handle(s, origin)) && Covered(Handle(s, origin))
  {
    RecipientsAre(s.nodes, s.up, origin);
    RemovedSorted(s.lists[origin], s.dead);
    var t := Handle(s, origin);
    forall i | 0 <= i < |t.flying|
      ensures t.flying[i] in s.up
    {
      var n := t.flying[i];
      assert n in Recipients(s.nodes, s.up, origin);
    }
  }

  lemma WithoutAt(f: seq<int>, i: nat)
    requires i < |f|
    ensures forall n :: n in f && n != f[i] ==> n in f[..i] + f[i + 1..]
    ensures forall n :: n in f[..i] + f[i + 1..] ==> n in f
  {
    assert f == f[..i] + [f[i]] + f[i + 1..];
  }

  lemma DeliverCovered(s: Net, i: nat)
    requires Sound(s) && Covered(s) && i < |s.flying|
    ensures Sound(Deliver(s, i)) && Covered(Deliver(s, i))
  {
    var n, t := s.flying[i], Deliver(s, i);
    RecipientsAre(s.nodes, s.up, n);
    RemovedSorted(s.lists[n], s.dead);
    WithoutAt(s.flying, i);
    forall j | 0 <= j < |t.flying|
      ensures t.flying[j] in s.up
    {
      var m, left := t.flying[j], s.flying[..i] + s.flying[i + 1..];
      if j < |left| {
        assert left[j] == m;
        assert m in left;
      } else {
        assert m in Recipients(s.nodes, s.up, n);
      }
    }
  }

  /** How many nodes that are up list the member. */
  ghost function Listing(s: Net): set<int> {
    set n | n in s.up && n in s.lists && s.dead in s.lists[n]
  }

  /** What a flood can still take: for every node that has the member, its own
      messages, and those under way. */
  ghost function Measure(s: Net): nat {
    |Listing(s)| * (|s.nodes| + 1) + |s.flying|
  }

  lemma DeliverMeasure(s: Net, i: nat)
    requires Sound(s) && i < |s.flying|
    ensures Measure(Deliver(s, i)) < Measure(s)
  {
    var n, t := s.flying[i], Deliver(s, i);
    RecipientsAre(s.nodes, s.up, n);
    RemovedSorted(s.lists[n], s.dead);
    if s.dead in s.lists[n] {
      assert Listing(t) == Listing(s) - {n};
      assert n in Listing(s);
      assert |Listing(t)| == |Listing(s)| - 1;
      Product(|Listing(t)|, |s.nodes| + 1);
    } else {
      assert Listing(t) == Listing(s);
    }
  }

  lemma Product(a: nat, b: nat)
    ensures (a + 1) * b == a * b + b
  {
  }

  /** A replica without the member. */
  ghost predicate Cleared(before: seq<OID>, after: seq<OID>, dead: OID) {
    after == before || after == Removed(before, dead)
  }

  lemma RemovedTwice(list: seq<OID>, x: OID)
    requires Sorted(list)
    ensures Removed(Removed(list, x), x) == Removed(list, x)
  {
    RemovedSorted(list, x);
    Gaggle.RemovedNone(Removed(list, x), x);
  }

  lemma {:induction false} RunKeeps(s: Net, picks: seq<nat>)
    requires Sound(s) && Covered(s) && Possible(s, picks)
    ensures Sound(Run(s, picks)) && Covered(Run(s, picks)) && |picks| + Measure(Run(s, picks)) <= Measure(s)
    ensures Run(s, picks).up == s.up && Run(s, picks).dead == s.dead && Run(s, picks).lists.Keys == s.lists.Keys
    ensures forall n :: n in s.lists ==> Cleared(s.lists[n], Run(s, picks).lists[n], s.dead)
    decreases |picks|
  {
    if picks != [] {
      var t := Deliver(s, picks[0]);
      DeliverCovered(s, picks[0]);
      DeliverMeasure(s, picks[0]);
      RunKeeps(t, picks[1..]);
      forall n | n in s.lists
        ensures Cleared(s.lists[n], Run(s, picks).lists[n], s.dead)
      {
        RemovedTwice(s.lists[n], s.dead);
        assert Cleared(t.lists[n], Run(s, picks).lists[n], s.dead);
      }
    }
  }

  /** However the messages of a deletion are delayed, the flood ends after no more
      than `Measure` deliveries, and when no message is left no node that is up
      lists the member, and its list is otherwise as it was. */
  lemma FloodEnds(s: Net, origin: int, picks: seq<nat>)
    requires Sound(s) && origin in s.up && s.flying == [] && s.dead in s.lists[origin]
    requires Possible(Handle(s, origin), picks)
    ensures |picks| <= Measure(Handle(s, origin))
    ensures var t := Run(Handle(s, origin), picks);
            t.flying == [] ==> forall n :: n in s.up ==> n in t.lists && t.lists[n] == Removed(s.lists[n], s.dead) && s.dead !in t.lists[n]
  {
    var h := Handle(s, origin);
    StartCovered(s, origin);
    RunKeeps(h, picks);
    var t := Run(h, picks);
    if t.flying == [] {
      forall n | n in s.up
        ensures n in t.lists && t.lists[n] == Removed(s.lists[n], s.dead) && s.dead !in t.lists[n]
      {
        RemovedTwice(s.lists[n], s.dead);
        RemovedSorted(s.lists[n], s.dead);
        assert Cleared(h.lists[n], t.lists[n], s.dead);
        if s.dead !in s.lists[n] {
          Gaggle.RemovedNone(s.lists[n], s.dead);
        }
      }
    }
  }
}
