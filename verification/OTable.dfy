/** The object table of vm/otable.c: one slot array indexed both by object
    identifier and by object. */
module ObjectTable {
  import opened OverflowChains

  const NIL: int := -1
  const NOOID: int := -2

  datatype Entry = Entry(key: int, value: int, ochain: int, oidchain: int)

  function OLinks(t: seq<Entry>): (r: seq<int>)
    ensures |r| == |t| && forall i :: 0 <= i < |t| ==> r[i] == t[i].ochain
  {
    seq(|t|, i requires 0 <= i < |t| => t[i].ochain)
  }

  function OidLinks(t: seq<Entry>): (r: seq<int>)
    ensures |r| == |t| && forall i :: 0 <= i < |t| ==> r[i] == t[i].oidchain
  {
    seq(|t|, i requires 0 <= i < |t| => t[i].oidchain)
  }

  function Bucket(hash: int -> nat, x: int, size: nat): (r: nat)
    requires size > 0
    ensures r < size
  {
    hash(x) % size
  }

  function OHome(e: Entry, hash: int -> nat, size: nat): int
    requires size > 0
  {
    if e.value == NIL then NONE else Bucket(hash, e.value, size)
  }

  function OidHome(e: Entry, hash: int -> nat, size: nat): int
    requires size > 0
  {
    if e.value == NIL then NONE else Bucket(hash, e.key, size)
  }

  /** The bucket of each slot's object. */
  function OHomes(t: seq<Entry>, hash: int -> nat): (r: seq<int>)
    ensures |r| == |t| && forall i :: 0 <= i < |t| ==> r[i] == OHome(t[i], hash, |t|)
  {
    seq(|t|, i requires 0 <= i < |t| => OHome(t[i], hash, |t|))
  }

  /** The bucket of each slot's identifier. */
  function OidHomes(t: seq<Entry>, hash: int -> nat): (r: seq<int>)
    ensures |r| == |t| && forall i :: 0 <= i < |t| ==> r[i] == OidHome(t[i], hash, |t|)
  {
    seq(|t|, i requires 0 <= i < |t| => OidHome(t[i], hash, |t|))
  }

  /** What a write of one slot does to the derived sequences. */
  lemma Wrote(t: seq<Entry>, oh: int -> nat, ih: int -> nat, i: int, e: Entry)
    requires 0 <= i < |t|
    ensures OLinks(t[i := e]) == OLinks(t)[i := e.ochain]
    ensures OidLinks(t[i := e]) == OidLinks(t)[i := e.oidchain]
    ensures OHomes(t[i := e], oh) == OHomes(t, oh)[i := OHome(e, oh, |t|)]
    ensures OidHomes(t[i := e], ih) == OidHomes(t, ih)[i := OidHome(e, ih, |t|)]
  {
  }

  // ----- the pairs in the table -----

  /** The used slots hold just the pairs of `pairs`, each once, and no two
      pairs have the same object. */
  ghost predicate Holds(t: seq<Entry>, pairs: map<int, int>) {
    && (forall i :: 0 <= i < |t| && t[i].value != NIL ==> t[i].key in pairs && pairs[t[i].key] == t[i].value)
    && (forall i, j :: 0 <= i < j < |t| && t[i].value != NIL && t[j].value != NIL
          ==> t[i].key != t[j].key && t[i].value != t[j].value)
    && (forall k :: k in pairs ==> exists i :: 0 <= i < |t| && t[i].value != NIL && t[i].key == k)
  }

  /** Different identifiers name different objects. */
  ghost predicate OneToOne(pairs: map<int, int>) {
    && (forall a, b :: a in pairs && b in pairs && a != b ==> pairs[a] != pairs[b])
    && (forall a :: a in pairs ==> pairs[a] != NIL)
  }

  ghost predicate Names(pairs: map<int, int>, value: int) {
    exists a :: a in pairs && pairs[a] == value
  }

  /** What OTableUpdateValue needs to know of the new address of an object:
      that no identifier names it. */
  ghost predicate CanReaddress(pairs: map<int, int>, oldv: int, newv: int) {
    newv != NIL && (newv == oldv || !Names(pairs, newv))
  }

  /** The identifier of an object that has moved, if it has one, follows it. */
  function Readdressed(pairs: map<int, int>, oldv: int, newv: int): map<int, int> {
    map a | a in pairs :: if pairs[a] == oldv then newv else pairs[a]
  }

  lemma ReaddressedOne(pairs: map<int, int>, a: int, newv: int)
    requires a in pairs && OneToOne(pairs)
    ensures Readdressed(pairs, pairs[a], newv) == pairs[a := newv]
  {
    var moved := Readdressed(pairs, pairs[a], newv);
    assert moved.Keys == pairs.Keys == pairs[a := newv].Keys;
    assert forall k :: k in pairs ==> moved[k] == pairs[a := newv][k];
  }

  lemma HoldsOneToOne(t: seq<Entry>, pairs: map<int, int>)
    requires Holds(t, pairs)
    ensures OneToOne(pairs)
  {
  }

  lemma HoldsAdd(t: seq<Entry>, pairs: map<int, int>, i: int, e: Entry)
    requires Holds(t, pairs) && 0 <= i < |t| && t[i].value == NIL
    requires e.value != NIL && e.key !in pairs && !Names(pairs, e.value)
    ensures Holds(t[i := e], pairs[e.key := e.value])
  {
    var t', pairs' := t[i := e], pairs[e.key := e.value];
    forall k | k in pairs'
      ensures exists j :: 0 <= j < |t'| && t'[j].value != NIL && t'[j].key == k
    {
      if k == e.key {
        assert t'[i].key == k;
      } else {
        var j :| 0 <= j < |t| && t[j].value != NIL && t[j].key == k;
        assert t'[j].key == k;
      }
    }
  }

  lemma HoldsDrop(t: seq<Entry>, pairs: map<int, int>, i: int, e: Entry)
    requires Holds(t, pairs) && 0 <= i < |t| && t[i].value != NIL && e.value == NIL
    ensures Holds(t[i := e], pairs - {t[i].key})
  {
    var t' := t[i := e];
    forall k | k in pairs - {t[i].key}
      ensures exists j :: 0 <= j < |t'| && t'[j].value != NIL && t'[j].key == k
    {
      var j :| 0 <= j < |t| && t[j].value != NIL && t[j].key == k;
      assert t'[j].key == k;
    }
  }

  lemma HoldsRename(t: seq<Entry>, pairs: map<int, int>, i: int, e: Entry)
    requires Holds(t, pairs) && 0 <= i < |t| && t[i].value != NIL
    requires e.value != NIL && e.key == t[i].key && forall k :: k in pairs && k != e.key ==> pairs[k] != e.value
    ensures Holds(t[i := e], pairs[e.key := e.value])
  {
    HoldsDrop(t, pairs, i, e.(value := NIL));
    HoldsAdd(t[i := e.(value := NIL)], pairs - {e.key}, i, e);
    assert t[i := e.(value := NIL)][i := e] == t[i := e];
    assert (pairs - {e.key})[e.key := e.value] == pairs[e.key := e.value];
  }

  /** Links do not matter to the pairs. */
  lemma HoldsSame(t: seq<Entry>, t': seq<Entry>, pairs: map<int, int>)
    requires Holds(t, pairs) && |t'| == |t|
    requires forall i :: 0 <= i < |t| ==> t'[i].key == t[i].key && t'[i].value == t[i].value
    ensures Holds(t', pairs)
  {
    forall k | k in pairs
      ensures exists j :: 0 <= j < |t'| && t'[j].value != NIL && t'[j].key == k
    {
      var j :| 0 <= j < |t| && t[j].value != NIL && t[j].key == k;
      assert t'[j].key == k;
    }
  }

  /** Both chain families and the free list are in order, and together they
      account for every slot but the first, which is never used. */
  ghost predicate Sound(t: seq<Entry>, oheads: seq<int>, oidheads: seq<int>, free: int, count: int,
                        oh: int -> nat, ih: int -> nat,
                        olists: seq<seq<int>>, oidlists: seq<seq<int>>, spare: seq<int>, pairs: map<int, int>)
  {
    && |t| >= 4 && |oheads| == |oidheads| == |t|
    && Family(OLinks(t), oheads, olists, OHomes(t, oh))
    && Family(OidLinks(t), oidheads, oidlists, OidHomes(t, ih))
    && Spare(OLinks(t), free, spare, OHomes(t, oh))
    && |spare| == |t| - 1 - count && count == |pairs|
    && Holds(t, pairs)
  }

  /** The first free slot. */
  lemma SpareFirst(t: seq<Entry>, oh: int -> nat, free: int, spare: seq<int>)
    requires Spare(OLinks(t), free, spare, OHomes(t, oh)) && spare != []
    ensures 1 <= free < |t| && t[free].value == NIL && free == spare[0]
  {
    SparePop(OLinks(t), free, spare, OHomes(t, oh), 0, 0);
  }

  lemma EnterSound(t: seq<Entry>, oheads: seq<int>, oidheads: seq<int>, free: int, count: int,
                   oh: int -> nat, ih: int -> nat,
                   olists: seq<seq<int>>, oidlists: seq<seq<int>>, spare: seq<int>, pairs: map<int, int>, a: int, value: int)
    requires Sound(t, oheads, oidheads, free, count, oh, ih, olists, oidlists, spare, pairs)
    requires count < |t| - 1 && value != NIL && a !in pairs && !Names(pairs, value)
    ensures 1 <= free < |t|
    ensures var ob, ib := Bucket(oh, value, |t|), Bucket(ih, a, |t|);
            Sound(t[free := Entry(a, value, oheads[ob], oidheads[ib])], oheads[ob := free], oidheads[ib := free],
                  t[free].ochain, count + 1, oh, ih,
                  olists[ob := [free] + olists[ob]], oidlists[ib := [free] + oidlists[ib]], spare[1..], pairs[a := value])
  {
    hide Family, Spare, Holds;
    SpareFirst(t, oh, free, spare);
    var ob, ib := Bucket(oh, value, |t|), Bucket(ih, a, |t|);
    var e := Entry(a, value, oheads[ob], oidheads[ib]);
    Wrote(t, oh, ih, free, e);
    FamilySizes(OLinks(t), oheads, olists, OHomes(t, oh));
    FamilySizes(OidLinks(t), oidheads, oidlists, OidHomes(t, ih));
    FamilyAdd(OLinks(t), oheads, olists, OHomes(t, oh), free, ob);
    FamilyAdd(OidLinks(t), oidheads, oidlists, OidHomes(t, ih), free, ib);
    SparePop(OLinks(t), free, spare, OHomes(t, oh), ob, e.ochain);
    HoldsAdd(t, pairs, free, e);
  }

  lemma FamilySizes(links: seq<int>, heads: seq<int>, lists: seq<seq<int>>, home: seq<int>)
    requires Family(links, heads, lists, home)
    ensures |lists| == |heads| && |home| == |links|
  {
  }

  lemma EmptySound(t: seq<Entry>, heads: seq<int>, oh: int -> nat, ih: int -> nat, lists: seq<seq<int>>, spare: seq<int>)
    requires |t| >= 4 && |heads| == |lists| == |t| && |spare| == |t| - 1
    requires forall i :: 0 <= i < |t| ==> t[i].value == NIL && heads[i] == 0 && lists[i] == []
    requires forall i :: 1 <= i < |t| ==> t[i].ochain == i + 1
    requires forall i :: 0 <= i < |spare| ==> spare[i] == i + 1
    ensures Sound(t, heads, heads, 1, 0, oh, ih, lists, lists, spare, map[])
  {
    forall i | 1 <= i < |t|
      ensures i in spare
    {
      assert spare[i - 1] == i;
    }
  }

  // ----- looking up -----

  /** The slots of bucket `b` are on its chain. */
  lemma OnChain(links: seq<int>, heads: seq<int>, lists: seq<seq<int>>, home: seq<int>, b: int, i: int)
    requires Family(links, heads, lists, home) && 0 <= b < |heads| && 0 <= i < |home| && home[i] == b
    ensures i in lists[b]
  {
    assert Members(lists[b], home, b);
  }

  /** A walk along a chain: from position `p` one step on. */
  lemma Step(links: seq<int>, heads: seq<int>, lists: seq<seq<int>>, home: seq<int>, b: int, p: nat)
    requires Family(links, heads, lists, home) && 0 <= b < |heads| && p <= |lists[b]|
    ensures p == 0 ==> heads[b] == if lists[b] == [] then 0 else lists[b][0]
    ensures p < |lists[b]| ==> && 0 < lists[b][p] < |links| && home[lists[b][p]] == b
                               && links[lists[b][p]] == if p + 1 < |lists[b]| then lists[b][p + 1] else 0
  {
    assert Linked(links, heads[b], lists[b], 0);
    if p < |lists[b]| {
      FamilyMember(links, heads, lists, home, b, p);
    }
  }

  /** The walk for an identifier has come to the end of its chain. */
  lemma NotOnOidChain(t: seq<Entry>, heads: seq<int>, ih: int -> nat, lists: seq<seq<int>>, pairs: map<int, int>, a: int)
    requires |t| > 0 && |heads| == |t| && Family(OidLinks(t), heads, lists, OidHomes(t, ih)) && Holds(t, pairs)
    requires forall i :: i in lists[Bucket(ih, a, |t|)] && 0 <= i < |t| ==> t[i].key != a
    ensures a !in pairs
  {
    if a in pairs {
      var i :| 0 <= i < |t| && t[i].value != NIL && t[i].key == a;
      OnChain(OidLinks(t), heads, lists, OidHomes(t, ih), Bucket(ih, a, |t|), i);
    }
  }

  lemma NotOnOChain(t: seq<Entry>, heads: seq<int>, oh: int -> nat, lists: seq<seq<int>>, pairs: map<int, int>, o: int)
    requires |t| > 0 && |heads| == |t| && Family(OLinks(t), heads, lists, OHomes(t, oh)) && Holds(t, pairs)
    requires forall i :: i in lists[Bucket(oh, o, |t|)] && 0 <= i < |t| ==> t[i].value != o
    ensures !Names(pairs, o)
  {
    if Names(pairs, o) {
      var a :| a in pairs && pairs[a] == o;
      var i :| 0 <= i < |t| && t[i].value != NIL && t[i].key == a;
      OnChain(OLinks(t), heads, lists, OHomes(t, oh), Bucket(oh, o, |t|), i);
    }
  }

  // ----- taking a slot out -----

  /** Only identifier links differ. */
  ghost predicate OnlyOidLinks(t: seq<Entry>, t': seq<Entry>) {
    |t'| == |t| && forall i :: 0 <= i < |t| ==> t'[i].(oidchain := t[i].oidchain) == t[i]
  }

  ghost predicate OnlyOLinks(t: seq<Entry>, t': seq<Entry>) {
    |t'| == |t| && forall i :: 0 <= i < |t| ==> t'[i].(ochain := t[i].ochain) == t[i]
  }

  /** The object and identifier chains lead past slot `i`. */
  ghost predicate Unchained(t: seq<Entry>, oheads: seq<int>, oidheads: seq<int>, free: int, count: int,
                            oh: int -> nat, ih: int -> nat,
                            olists: seq<seq<int>>, oidlists: seq<seq<int>>, spare: seq<int>, pairs: map<int, int>, i: int)
  {
    && |t| >= 4 && |oheads| == |oidheads| == |t| && 0 < i < |t| && t[i].value != NIL && Holds(t, pairs)
    && Family(OidLinks(t), oidheads, oidlists, OidHomes(t, ih)[i := NONE])
    && Family(OLinks(t), oheads, olists, OHomes(t, oh)[i := NONE])
    && Spare(OLinks(t), free, spare, OHomes(t, oh)) && |spare| == |t| - 1 - count && count == |pairs|
  }

  /** Then it goes onto the free list. */
  lemma DeleteSound(t: seq<Entry>, oheads: seq<int>, oidheads: seq<int>, free: int, count: int,
                    oh: int -> nat, ih: int -> nat,
                    olists: seq<seq<int>>, oidlists: seq<seq<int>>, spare: seq<int>, pairs: map<int, int>, i: int)
    requires Unchained(t, oheads, oidheads, free, count, oh, ih, olists, oidlists, spare, pairs, i)
    ensures 0 < i < |t| && t[i].key in pairs
    ensures Sound(t[i := Entry(NOOID, NIL, free, 0)], oheads, oidheads, i, count - 1, oh, ih,
                  olists, oidlists, [i] + spare, pairs - {t[i].key})
  {
    hide Family, Spare, Holds;
    Wrote(t, oh, ih, i, Entry(NOOID, NIL, free, 0));
    FamilyFrame(OidLinks(t), oidheads, oidlists, OidHomes(t, ih)[i := NONE], i, 0);
    FamilyFrame(OLinks(t), oheads, olists, OHomes(t, oh)[i := NONE], i, free);
    SparePush(OLinks(t), free, spare, OHomes(t, oh), i);
    HoldsDrop(t, pairs, i, Entry(NOOID, NIL, free, 0));
    HoldsAt(t, pairs, i);
  }

  lemma HoldsAt(t: seq<Entry>, pairs: map<int, int>, i: int)
    requires Holds(t, pairs) && 0 <= i < |t| && t[i].value != NIL
    ensures t[i].key in pairs && pairs[t[i].key] == t[i].value
    ensures forall k :: k in pairs && k != t[i].key ==> pairs[k] != t[i].value
  {
  }

  lemma SameHomes(t: seq<Entry>, t1: seq<Entry>, t2: seq<Entry>, oh: int -> nat, ih: int -> nat)
    requires OnlyOidLinks(t, t1) && OnlyOLinks(t1, t2) && |t| > 0
    ensures |t2| == |t1| == |t|
    ensures OidLinks(t2) == OidLinks(t1) && OLinks(t1) == OLinks(t)
    ensures OHomes(t2, oh) == OHomes(t1, oh) == OHomes(t, oh) && OidHomes(t2, ih) == OidHomes(t1, ih) == OidHomes(t, ih)
    ensures forall i :: 0 <= i < |t| ==> t2[i].key == t1[i].key == t[i].key && t2[i].value == t1[i].value == t[i].value
  {
  }

  /** A slot whose object chain has been relinked past it gets another object. */
  lemma UpdateSound(t: seq<Entry>, t2: seq<Entry>, oheads: seq<int>, oidheads: seq<int>, free: int, count: int,
                    oh: int -> nat, ih: int -> nat,
                    olists: seq<seq<int>>, oidlists: seq<seq<int>>, spare: seq<int>, pairs: map<int, int>, i: int, newv: int)
    requires |t| >= 4 && |oheads| == |oidheads| == |t| && 0 < i < |t| && t[i].value != NIL && Holds(t, pairs) && newv != NIL
    requires OnlyOLinks(t, t2) && forall k :: k in pairs && k != t[i].key ==> pairs[k] != newv
    requires Family(OidLinks(t), oidheads, oidlists, OidHomes(t, ih))
    requires Family(OLinks(t2), oheads, olists, OHomes(t, oh)[i := NONE])
    requires Spare(OLinks(t2), free, spare, OHomes(t, oh)) && |spare| == |t| - 1 - count && count == |pairs|
    ensures |t2| == |t| && |olists| == |t| && t[i].key in pairs
    ensures var b := Bucket(oh, newv, |t|);
            Sound(t2[i := Entry(t[i].key, newv, oheads[b], t[i].oidchain)], oheads[b := i], oidheads, free, count, oh, ih,
                  olists[b := [i] + olists[b]], oidlists, spare, pairs[t[i].key := newv])
  {
    hide Family, Spare, Holds;
    var b := Bucket(oh, newv, |t|);
    var e := Entry(t[i].key, newv, oheads[b], t[i].oidchain);
    SameHomes(t, t, t2, oh, ih);
    Wrote(t2, oh, ih, i, e);
    FamilySizes(OLinks(t2), oheads, olists, OHomes(t, oh)[i := NONE]);
    FamilyAdd(OLinks(t2), oheads, olists, OHomes(t, oh)[i := NONE], i, b);
    UpdateHomes(OHomes(t, oh), OidHomes(t, ih), OidLinks(t), i, b, OidHome(e, ih, |t|));
    UpdateSpare(OLinks(t2), free, spare, OHomes(t, oh), i, b, e.ochain);
    UpdateHolds(t, t2, pairs, i, e);
  }

  lemma UpdateHomes(home: seq<int>, oidhome: seq<int>, links: seq<int>, i: int, b: int, ib: int)
    requires |oidhome| == |home| == |links| && 0 <= i < |home| && oidhome[i] == ib
    ensures home[i := NONE][i := b] == home[i := b] && oidhome[i := ib] == oidhome && links[i := links[i]] == links
  {
  }

  lemma UpdateSpare(links: seq<int>, free: int, list: seq<int>, home: seq<int>, i: int, b: int, v: int)
    requires Spare(links, free, list, home) && 0 <= i < |home| && home[i] != NONE && b != NONE
    ensures |home| == |links| && Spare(links[i := v], free, list, home[i := b])
  {
    SpareNot(links, free, list, home, i);
    SpareFrame(links, free, list, home, i, v);
    SpareHomes(links[i := v], free, list, home, i, b);
  }

  lemma UpdateHolds(t: seq<Entry>, t2: seq<Entry>, pairs: map<int, int>, i: int, e: Entry)
    requires Holds(t, pairs) && OnlyOLinks(t, t2) && 0 <= i < |t| && t[i].value != NIL
    requires e.value != NIL && e.key == t[i].key && forall k :: k in pairs && k != e.key ==> pairs[k] != e.value
    ensures |t2| == |t| && Holds(t2[i := e], pairs[e.key := e.value]) && e.key in pairs && |pairs[e.key := e.value]| == |pairs|
  {
    HoldsSame(t, t2, pairs);
    HoldsRename(t2, pairs, i, e);
    HoldsAt(t, pairs, i);
    assert pairs[e.key := e.value].Keys == pairs.Keys;
    assert |pairs[e.key := e.value].Keys| == |pairs[e.key := e.value]|;
  }

  lemma SpareNot(links: seq<int>, free: int, list: seq<int>, home: seq<int>, i: int)
    requires Spare(links, free, list, home) && 0 <= i < |home| && home[i] != NONE
    ensures i !in list
  {
  }

  lemma SpareHomes(links: seq<int>, free: int, list: seq<int>, home: seq<int>, i: int, b: int)
    requires Spare(links, free, list, home) && 0 <= i < |home| && home[i] != NONE && b != NONE
    ensures Spare(links, free, list, home[i := b])
  {
  }

  /** The pairs with other objects than `o`. */
  function WithoutObject(pairs: map<int, int>, o: int): map<int, int> {
    map k | k in pairs && pairs[k] != o :: pairs[k]
  }

  class OTable {
    var table: array<Entry>
    var size: nat
    var count: int
    var free: int
    var olookup: array<int>
    var oidlookup: array<int>
    const ohash: int -> nat
    const oidhash: int -> nat

    ghost var olists: seq<seq<int>>     // the object chains
    ghost var oidlists: seq<seq<int>>   // the identifier chains
    ghost var spare: seq<int>           // the free list
    ghost var pairs: map<int, int>      // the object of each identifier

    ghost function Repr(): set<object>
      reads this
    {
      {this, table, olookup, oidlookup}
    }

    ghost predicate Valid()
      reads this, table, olookup, oidlookup
    {
      && size == table.Length && olookup != oidlookup
      && Sound(table[..], olookup[..], oidlookup[..], free, count, ohash, oidhash, olists, oidlists, spare, pairs)
    }

    /** The smallest of the sizes 4, 8, 16, ... above `n` (chooseSize). */
    static method ChooseSize(n: nat) returns (r: nat)
      ensures r > n && r >= 4 && (r == 4 || r <= 2 * n)
    {
      r := 4;
      while r <= n
        invariant r >= 4 && (r == 4 || r <= 2 * n)
      {
        r := 2 * r;
      }
    }

    /** OTableCreateN. */
    constructor (n: nat, ohash: int -> nat, oidhash: int -> nat)
      ensures Valid() && pairs == map[] && count == 0 && size > n && (size == 4 || size <= 2 * n) && fresh(Repr())
      ensures this.ohash == ohash && this.oidhash == oidhash
    {
      hide Sound;
      var chosen := ChooseSize(n);
      size, count, free := chosen, 0, 1;
      this.ohash, this.oidhash := ohash, oidhash;
      var t := new Entry[chosen](i => Entry(NOOID, NIL, i + 1, 0));
      var o := new int[chosen](_ => 0);
      var d := new int[chosen](_ => 0);
      t[0] := Entry(NOOID, NIL, 0, 0);
      table, olookup, oidlookup := t, o, d;
      olists, oidlists := seq(chosen, _ => []), seq(chosen, _ => []);
      spare, pairs := seq(chosen - 1, i => i + 1), map[];
      new;
      assert olookup[..] == oidlookup[..];
      EmptySound(table[..], olookup[..], ohash, oidhash, olists, spare);
    }

    /** IOTableInsert, when there is room. */
    method Enter(a: int, value: int)
      requires Valid() && count < size - 1 && value != NIL && a !in pairs && !Names(pairs, value)
      modifies this`count, this`free, this`olists, this`oidlists, this`spare, this`pairs, table, olookup, oidlookup
      ensures Valid() && pairs == old(pairs)[a := value] && count == old(count) + 1
    {
      hide Sound, Names, Holds, OneToOne, Bucket;
      SoundSizes(table[..], olookup[..], oidlookup[..], free, count, ohash, oidhash, olists, oidlists, spare, pairs);
      EnterSound(table[..], olookup[..], oidlookup[..], free, count, ohash, oidhash, olists, oidlists, spare, pairs, a, value);
      ghost var t, oheads, oidheads := table[..], olookup[..], oidlookup[..];
      var index := free;
      free := table[index].ochain;
      var ob, ib := Bucket(ohash, value, size), Bucket(oidhash, a, size);
      table[index] := Entry(a, value, olookup[ob], oidlookup[ib]);
      olookup[ob] := index;
      oidlookup[ib] := index;
      count := count + 1;
      olists := olists[ob := [index] + olists[ob]];
      oidlists := oidlists[ib := [index] + oidlists[ib]];
      spare, pairs := spare[1..], pairs[a := value];
      assert table[..] == t[index := Entry(a, value, oheads[ob], oidheads[ib])];
      assert olookup[..] == oheads[ob := index] && oidlookup[..] == oidheads[ib := index];
    }

    static lemma SoundSizes(t: seq<Entry>, oheads: seq<int>, oidheads: seq<int>, free: int, count: int,
                   oh: int -> nat, ih: int -> nat,
                   olists: seq<seq<int>>, oidlists: seq<seq<int>>, spare: seq<int>, pairs: map<int, int>)
      requires Sound(t, oheads, oidheads, free, count, oh, ih, olists, oidlists, spare, pairs)
      ensures |oheads| == |oidheads| == |t| == |olists| == |oidlists| && |t| >= 4 && 0 <= count == |pairs| <= |t| - 1
      ensures |spare| == |t| - 1 - count
      ensures Holds(t, pairs) && OneToOne(pairs)
    {
      HoldsOneToOne(t, pairs);
    }

    /** OTableInsert: neither the identifier nor the object may be in the table. */
    method Insert(a: int, value: int)
      requires Valid() && value != NIL && a !in pairs && !Names(pairs, value)
      modifies Repr()
      ensures Valid() && fresh(Repr() - old(Repr()))
      ensures pairs == old(pairs)[a := value] && OneToOne(pairs) && count == old(count) + 1
      ensures if old(count) < old(size) - 1 then size == old(size) && table == old(table) else old(size) + 1 < size <= 2 * old(size) + 2
    {
      hide Sound, Names;
      SoundSizes(table[..], olookup[..], oidlookup[..], free, count, ohash, oidhash, olists, oidlists, spare, pairs);
      if count >= size - 1 {
        ExpandHashTable();
      }
      Enter(a, value);
      SoundSizes(table[..], olookup[..], oidlookup[..], free, count, ohash, oidhash, olists, oidlists, spare, pairs);
    }

    /** The table gives way to a bigger one with the same pairs. */
    method ExpandHashTable()
      requires Valid()
      modifies this
      ensures Valid() && pairs == old(pairs) && count < size - 1 && old(size) + 1 < size <= 2 * old(size) + 2
      ensures fresh(Repr() - {this})
    {
      hide Sound;
      var newsc := Reinserted();
      table, olookup, oidlookup := newsc.table, newsc.olookup, newsc.oidlookup;
      size, count, free := newsc.size, newsc.count, newsc.free;
      olists, oidlists, spare := newsc.olists, newsc.oidlists, newsc.spare;
    }

    /** All pairs are entered into a bigger table, in which they all have room. */
    method Reinserted() returns (newsc: OTable)
      requires Valid()
      ensures newsc.Valid() && fresh(newsc.Repr()) && newsc.pairs == pairs
      ensures newsc.ohash == ohash && newsc.oidhash == oidhash
      ensures newsc.count < newsc.size - 1 && size + 1 < newsc.size <= 2 * size + 2
    {
      hide Sound, Names, OneToOne, Holds, Prefix;
      SoundSizes(table[..], olookup[..], oidlookup[..], free, count, ohash, oidhash, olists, oidlists, spare, pairs);
      ghost var t := table[..];
      newsc := new OTable(size + 1, ohash, oidhash);
      ghost var most := newsc.size;
      var oe := 0;
      PrefixNone(t);
      while oe < size
        invariant 0 <= oe <= size && size + 1 < newsc.size == most
        invariant newsc.Valid() && fresh(newsc.Repr()) && newsc.pairs == Prefix(t, oe)
        invariant newsc.ohash == ohash && newsc.oidhash == oidhash && newsc.count <= oe
      {
        PrefixNext(t, pairs, oe);
        if table[oe].value != NIL {
          newsc.Enter(table[oe].key, table[oe].value);
        }
        oe := oe + 1;
      }
      PrefixAll(t, pairs);
    }

    /** The pairs in the first `n` slots. */
    static ghost function Prefix(t: seq<Entry>, n: nat): map<int, int>
      requires n <= |t|
    {
      if n == 0 then map[]
      else if t[n - 1].value == NIL then Prefix(t, n - 1)
      else Prefix(t, n - 1)[t[n - 1].key := t[n - 1].value]
    }

    static lemma PrefixNone(t: seq<Entry>)
      ensures Prefix(t, 0) == map[]
    {
    }

    static lemma {:induction false} PrefixHas(t: seq<Entry>, pairs: map<int, int>, n: nat)
      requires Holds(t, pairs) && n <= |t|
      ensures forall k :: k in Prefix(t, n) ==> exists i :: 0 <= i < n && t[i].value != NIL && t[i].key == k && Prefix(t, n)[k] == t[i].value
      ensures forall i :: 0 <= i < n && t[i].value != NIL ==> t[i].key in Prefix(t, n)
    {
      if n > 0 {
        PrefixHas(t, pairs, n - 1);
        forall k | k in Prefix(t, n)
          ensures exists i :: 0 <= i < n && t[i].value != NIL && t[i].key == k && Prefix(t, n)[k] == t[i].value
        {
          if t[n - 1].value != NIL && k == t[n - 1].key {
            assert Prefix(t, n)[k] == t[n - 1].value;
          } else {
            assert k in Prefix(t, n - 1);
            var i :| 0 <= i < n - 1 && t[i].value != NIL && t[i].key == k && Prefix(t, n - 1)[k] == t[i].value;
            assert Prefix(t, n)[k] == t[i].value;
          }
        }
      }
    }

    static lemma PrefixNext(t: seq<Entry>, pairs: map<int, int>, n: nat)
      requires Holds(t, pairs) && n < |t|
      ensures t[n].value != NIL ==> t[n].key !in Prefix(t, n) && !Names(Prefix(t, n), t[n].value)
      ensures Prefix(t, n + 1) == if t[n].value == NIL then Prefix(t, n) else Prefix(t, n)[t[n].key := t[n].value]
    {
      PrefixHas(t, pairs, n);
    }

    static lemma PrefixAll(t: seq<Entry>, pairs: map<int, int>)
      requires Holds(t, pairs)
      ensures Prefix(t, |t|) == pairs
    {
      PrefixHas(t, pairs, |t|);
      forall k | k in pairs
        ensures k in Prefix(t, |t|)
      {
        var i :| 0 <= i < |t| && t[i].value != NIL && t[i].key == k;
        assert t[i].key in Prefix(t, |t|);
      }
      forall k | k in Prefix(t, |t|)
        ensures k in pairs && pairs[k] == Prefix(t, |t|)[k]
      {
        var i :| 0 <= i < |t| && t[i].value != NIL && t[i].key == k && Prefix(t, |t|)[k] == t[i].value;
      }
    }

    // ----- looking up -----

    /** LookupByOID: the slot of an identifier, 0 if it has none. */
    method SlotOfOID(a: int) returns (index: int)
      requires Valid()
      ensures index == 0 <==> a !in pairs
      ensures index != 0 ==> 0 < index < size && table[index].key == a && table[index].value != NIL
                             && a in pairs && table[index].value == pairs[a]
    {
      hide Family, Spare, Holds;
      var b := Bucket(oidhash, a, size);
      ghost var t, p := table[..], 0;
      FamilySizes(OidLinks(t), oidlookup[..], oidlists, OidHomes(t, oidhash));
      ghost var list := oidlists[b];
      index := oidlookup[b];
      Step(OidLinks(t), oidlookup[..], oidlists, OidHomes(t, oidhash), b, 0);
      while index != 0
        invariant 0 <= p <= |list| && index == if p < |list| then list[p] else 0
        invariant p < |list| ==> 0 < index < size && t[index].value != NIL
        invariant forall q :: 0 <= q < p ==> 0 <= list[q] < size && t[list[q]].key != a
        decreases |list| - p
      {
        HoldsAt(t, pairs, index);
        if table[index].key == a {
          return;
        }
        Step(OidLinks(t), oidlookup[..], oidlists, OidHomes(t, oidhash), b, p);
        index, p := table[index].oidchain, p + 1;
        Step(OidLinks(t), oidlookup[..], oidlists, OidHomes(t, oidhash), b, p);
      }
      NotOnOidChain(t, oidlookup[..], oidhash, oidlists, pairs, a);
    }

    /** OTableLookupByOID. */
    method LookupByOID(a: int) returns (value: int)
      requires Valid()
      ensures value == if a in pairs then pairs[a] else NIL
    {
      hide Sound;
      var e := SlotOfOID(a);
      value := if e == 0 then NIL else table[e].value;
    }

    /** LookupByObject: the slot of an object, 0 if it has none. */
    method SlotOfObject(o: int) returns (index: int)
      requires Valid()
      ensures index == 0 <==> !Names(pairs, o)
      ensures index != 0 ==> 0 < index < size && table[index].value == o != NIL
                             && table[index].key in pairs && pairs[table[index].key] == o
    {
      hide Family, Spare, Holds;
      var b := Bucket(ohash, o, size);
      ghost var t, p := table[..], 0;
      FamilySizes(OLinks(t), olookup[..], olists, OHomes(t, ohash));
      ghost var list := olists[b];
      index := olookup[b];
      Step(OLinks(t), olookup[..], olists, OHomes(t, ohash), b, 0);
      while index != 0
        invariant 0 <= p <= |list| && index == if p < |list| then list[p] else 0
        invariant p < |list| ==> 0 < index < size && t[index].value != NIL
        invariant forall q :: 0 <= q < p ==> 0 <= list[q] < size && t[list[q]].value != o
        decreases |list| - p
      {
        HoldsAt(t, pairs, index);
        if table[index].value == o {
          return;
        }
        Step(OLinks(t), olookup[..], olists, OHomes(t, ohash), b, p);
        index, p := table[index].ochain, p + 1;
        Step(OLinks(t), olookup[..], olists, OHomes(t, ohash), b, p);
      }
      NotOnOChain(t, olookup[..], ohash, olists, pairs, o);
    }

    /** OTableLookupByObject. */
    method LookupByObject(o: int) returns (a: int)
      requires Valid()
      ensures Names(pairs, o) ==> a in pairs && pairs[a] == o
      ensures !Names(pairs, o) ==> a == NOOID
    {
      hide Sound;
      var e := SlotOfObject(o);
      a := if e == 0 then NOOID else table[e].key;
    }

    // ----- deleting -----

    /** RemoveFromOIDChain: the slot `i` holding `o` is linked past. */
    method RemoveFromOIDChain(a: int, o: int, ghost i: int)
      requires size == table.Length > 0 && oidlookup.Length == size && oidlookup != olookup
      requires Family(OidLinks(table[..]), oidlookup[..], oidlists, OidHomes(table[..], oidhash)) && Holds(table[..], pairs)
      requires 0 < i < size && o != NIL && table[i].value == o && table[i].key == a
      modifies this`oidlists, table, oidlookup
      ensures OnlyOidLinks(old(table[..]), table[..])
      ensures Family(OidLinks(table[..]), oidlookup[..], oidlists, OidHomes(old(table[..]), oidhash)[i := NONE])
    {
      hide Family, Holds;
      var b := Bucket(oidhash, a, size);
      ghost var t, heads, lists := table[..], oidlookup[..], oidlists;
      ghost var p := 0;
      FamilySizes(OidLinks(t), heads, lists, OidHomes(t, oidhash));
      OnChain(OidLinks(t), heads, lists, OidHomes(t, oidhash), b, i);
      ghost var list := lists[b];
      var prev, index := 0, oidlookup[b];
      Step(OidLinks(t), heads, lists, OidHomes(t, oidhash), b, 0);
      while table[index].value != o
        invariant 0 <= p < |list| && index == list[p] && 0 < index < size && prev == (if p == 0 then 0 else list[p - 1]) && (p > 0 ==> prev > 0)
        invariant forall q :: 0 <= q < p ==> list[q] != i
        invariant table[..] == t && oidlookup[..] == heads && oidlists == lists
        decreases |list| - p
      {
        Step(OidLinks(t), heads, lists, OidHomes(t, oidhash), b, p);
        prev, index, p := index, table[index].oidchain, p + 1;
        Step(OidLinks(t), heads, lists, OidHomes(t, oidhash), b, p);
      }
      Step(OidLinks(t), heads, lists, OidHomes(t, oidhash), b, p);
      SameSlot(t, pairs, i, index);
      if prev == 0 {
        FamilyCutFirst(OidLinks(t), heads, lists, OidHomes(t, oidhash), b);
        oidlookup[b] := table[index].oidchain;
        assert oidlookup[..] == heads[b := t[index].oidchain];
      } else {
        FamilyCut(OidLinks(t), heads, lists, OidHomes(t, oidhash), b, p);
        table[prev] := table[prev].(oidchain := table[index].oidchain);
        assert table[..] == t[prev := t[prev].(oidchain := t[index].oidchain)];
        assert OidLinks(table[..]) == OidLinks(t)[prev := OidLinks(t)[index]];
      }
      oidlists := lists[b := Without(list, p)];
    }

    static lemma SameSlot(t: seq<Entry>, pairs: map<int, int>, i: int, j: int)
      requires Holds(t, pairs) && 0 <= i < |t| && 0 <= j < |t| && t[i].value == t[j].value != NIL
      ensures i == j
    {
    }

    static lemma OLinksLength(t: seq<Entry>, hash: int -> nat)
      ensures |OLinks(t)| == |OHomes(t, hash)| == |t|
      ensures forall i :: 0 <= i < |t| ==> OLinks(t)[i] == t[i].ochain
    {
    }

    /** The walk of RemoveFromOChain. */
    method FindOnOChain(o: int, b: int, ghost i: int) returns (index: int, prev: int, ghost p: nat)
      requires size == table.Length > 0 && olookup.Length == size && b == Bucket(ohash, o, size)
      requires Family(OLinks(table[..]), olookup[..], olists, OHomes(table[..], ohash)) && Holds(table[..], pairs)
      requires 0 < i < size && o != NIL && table[i].value == o
      ensures |olists| == size && 0 <= b < size && p < |olists[b]| && index == olists[b][p] == i
      ensures if p == 0 then prev == 0 && olookup[b] == index else prev == olists[b][p - 1] && 0 < prev < size && table[prev].ochain == index
    {
      hide Family, Holds, OLinks, OHomes;
      ghost var t, heads, lists := table[..], olookup[..], olists;
      p := 0;
      OLinksLength(t, ohash);
      HomeAt(t, ohash, i);
      FamilySizes(OLinks(t), heads, lists, OHomes(t, ohash));
      OnChain(OLinks(t), heads, lists, OHomes(t, ohash), b, i);
      ghost var list := lists[b];
      prev := 0;
      index := olookup[b];
      Step(OLinks(t), heads, lists, OHomes(t, ohash), b, 0);
      while table[index].value != o
        invariant 0 <= p < |list| && index == list[p] && 0 < index < size && prev == (if p == 0 then 0 else list[p - 1]) && (p > 0 ==> 0 < prev < size)
        invariant forall q :: 0 <= q < p ==> list[q] != i
        decreases |list| - p
      {
        Step(OLinks(t), heads, lists, OHomes(t, ohash), b, p);
        prev, index, p := index, table[index].ochain, p + 1;
        Step(OLinks(t), heads, lists, OHomes(t, ohash), b, p);
      }
      Step(OLinks(t), heads, lists, OHomes(t, ohash), b, p);
      SameSlot(t, pairs, i, index);
      if p > 0 {
        Step(OLinks(t), heads, lists, OHomes(t, ohash), b, p - 1);
      }
    }

    static lemma HomeAt(t: seq<Entry>, hash: int -> nat, i: int)
      requires 0 <= i < |t| && t[i].value != NIL
      ensures OHomes(t, hash)[i] == Bucket(hash, t[i].value, |t|)
    {
    }

    /** RemoveFromOChain: the slot `i` holding `o` is linked past. */
    method RemoveFromOChain(o: int, ghost i: int) returns (index: int)
      requires size == table.Length > 0 && olookup.Length == size && oidlookup != olookup
      requires Family(OLinks(table[..]), olookup[..], olists, OHomes(table[..], ohash)) && Holds(table[..], pairs)
      requires Spare(OLinks(table[..]), free, spare, OHomes(table[..], ohash))
      requires 0 < i < size && o != NIL && table[i].value == o
      modifies this`olists, table, olookup
      ensures index == i && OnlyOLinks(old(table[..]), table[..]) && table[i] == old(table[i])
      ensures Family(OLinks(table[..]), olookup[..], olists, OHomes(old(table[..]), ohash)[i := NONE])
      ensures Spare(OLinks(table[..]), free, spare, OHomes(old(table[..]), ohash))
    {
      hide Family, Holds, Spare, OLinks, OHomes;
      var b := Bucket(ohash, o, size);
      ghost var t, heads, lists := table[..], olookup[..], olists;
      OLinksLength(t, ohash);
      ghost var p;
      var prev;
      index, prev, p := FindOnOChain(o, b, i);
      ghost var list := lists[b];
      if prev == 0 {
        FamilyCutFirst(OLinks(t), heads, lists, OHomes(t, ohash), b);
        olookup[b] := table[index].ochain;
        assert olookup[..] == heads[b := t[index].ochain];
      } else {
        FamilyCut(OLinks(t), heads, lists, OHomes(t, ohash), b, p);
        FamilyMember(OLinks(t), heads, lists, OHomes(t, ohash), b, p - 1);
        FamilyDistinct(OLinks(t), heads, lists, OHomes(t, ohash), b, p);
        SpareNot(OLinks(t), free, spare, OHomes(t, ohash), prev);
        SpareFrame(OLinks(t), free, spare, OHomes(t, ohash), prev, t[index].ochain);
        table[prev] := table[prev].(ochain := table[index].ochain);
        assert table[..] == t[prev := t[prev].(ochain := t[index].ochain)];
        assert OLinks(table[..]) == OLinks(t)[prev := OLinks(t)[index]];
      }
      olists := lists[b := Without(list, p)];
    }

    static lemma FamilyDistinct(links: seq<int>, heads: seq<int>, lists: seq<seq<int>>, home: seq<int>, b: int, p: nat)
      requires Family(links, heads, lists, home) && 0 <= b < |heads| && 0 < p < |lists[b]|
      ensures lists[b][p - 1] != lists[b][p]
    {
      LinkedDistinct(links, heads[b], lists[b], 0);
    }

    /** Delete: a used slot becomes the first free one. */
    method Delete(e: int)
      requires Valid() && 0 < e < size && table[e].value != NIL
      modifies this`count, this`free, this`olists, this`oidlists, this`spare, this`pairs, table, olookup, oidlookup
      ensures Valid() && pairs == old(pairs) - {old(table[e].key)} && count == old(count) - 1 && free == e
    {
      hide Sound, Unchained;
      ghost var key := table[e].key;
      Unchain(e);
      ghost var t := table[..];
      DeleteSound(t, olookup[..], oidlookup[..], free, count, ohash, oidhash, olists, oidlists, spare, pairs, e);
      table[e] := Entry(NOOID, NIL, free, 0);
      assert table[..] == t[e := Entry(NOOID, NIL, free, 0)];
      spare, pairs := [e] + spare, pairs - {key};
      free, count := e, count - 1;
    }

    method Unchain(e: int)
      requires Valid() && 0 < e < size && table[e].value != NIL
      modifies this`olists, this`oidlists, table, olookup, oidlookup
      ensures Unchained(table[..], olookup[..], oidlookup[..], free, count, ohash, oidhash, olists, oidlists, spare, pairs, e)
      ensures table[e].key == old(table[e].key)
    {
      hide Family, Holds, Spare, OnlyOidLinks, OnlyOLinks;
      ghost var t := table[..];
      RemoveFromOIDChain(table[e].key, table[e].value, e);
      ghost var t1 := table[..];
      SameHomes(t, t1, t1, ohash, oidhash);
      HoldsSame(t, t1, pairs);
      var _ := RemoveFromOChain(table[e].value, e);
      SameHomes(t1, t1, table[..], ohash, oidhash);
      HoldsSame(t1, table[..], pairs);
    }

    /** OTableDeleteByOID. */
    method DeleteByOID(a: int)
      requires Valid()
      modifies Repr()
      ensures Valid() && pairs == old(pairs) - {a} && OneToOne(pairs) && Repr() == old(Repr())
    {
      hide Sound, Holds, OneToOne;
      var e := SlotOfOID(a);
      NothingToDrop(pairs, a);
      if e != 0 {
        Delete(e);
      }
      SoundSizes(table[..], olookup[..], oidlookup[..], free, count, ohash, oidhash, olists, oidlists, spare, pairs);
    }

    /** OTableDeleteByObject. */
    method DeleteByObject(o: int)
      requires Valid()
      modifies Repr()
      ensures Valid() && OneToOne(pairs) && Repr() == old(Repr())
      ensures pairs == map a | a in old(pairs) && old(pairs)[a] != o :: old(pairs)[a]
    {
      hide Sound, Holds;
      SoundSizes(table[..], olookup[..], oidlookup[..], free, count, ohash, oidhash, olists, oidlists, spare, pairs);
      var e := SlotOfObject(o);
      DropNamed(pairs, if e == 0 then NOOID else table[e].key, o);
      if e != 0 {
        Delete(e);
      }
      SoundSizes(table[..], olookup[..], oidlookup[..], free, count, ohash, oidhash, olists, oidlists, spare, pairs);
    }

    static lemma NothingToDrop(pairs: map<int, int>, a: int)
      ensures a !in pairs ==> pairs - {a} == pairs
    {
    }

    static lemma DropNamed(pairs: map<int, int>, a: int, o: int)
      requires OneToOne(pairs)
      ensures a in pairs && pairs[a] == o ==> pairs - {a} == WithoutObject(pairs, o)
      ensures !Names(pairs, o) ==> pairs == WithoutObject(pairs, o)
    {
      assert forall k :: k in pairs && k != a && a in pairs && pairs[a] == o ==> k in WithoutObject(pairs, o);
      if !Names(pairs, o) {
        forall k | k in pairs
          ensures k in WithoutObject(pairs, o)
        {
          assert pairs[k] != o;
        }
      }
    }

    /** OTableUpdateValue: an object has moved; its identifier names it where it
        is now. */
    method UpdateValue(oldv: int, newv: int, ghost a: int)
      requires Valid() && a in pairs && pairs[a] == oldv && CanReaddress(pairs, oldv, newv)
      modifies Repr()
      ensures Valid() && pairs == old(pairs)[a := newv] == Readdressed(old(pairs), oldv, newv) && OneToOne(pairs) && Repr() == old(Repr())
    {
      hide Family, Spare, Holds, Sound;
      ghost var i := SlotHolding(a);
      ghost var t := table[..];
      HoldsAt(t, pairs, i);
      HoldsOneToOne(t, pairs);
      ReaddressedOne(pairs, a, newv);
      var e := RemoveFromOChain(oldv, i);
      ghost var t2, oheads := table[..], olookup[..];
      var b := Bucket(ohash, newv, size);
      UpdateSound(t, t2, oheads, oidlookup[..], free, count, ohash, oidhash, olists, oidlists, spare, pairs, i, newv);
      table[e] := Entry(table[e].key, newv, olookup[b], table[e].oidchain);
      olookup[b] := e;
      assert table[..] == t2[e := Entry(t[e].key, newv, oheads[b], t[e].oidchain)];
      assert olookup[..] == oheads[b := e];
      olists, pairs := olists[b := [e] + olists[b]], pairs[a := newv];
      SoundSizes(table[..], olookup[..], oidlookup[..], free, count, ohash, oidhash, olists, oidlists, spare, pairs);
    }

    /** The slot that holds an identifier, and what is known of the table there. */
    lemma SlotHolding(a: int) returns (i: int)
      requires Valid() && a in pairs
      ensures 0 < i < size && table[i].value != NIL && table[i].key == a
      ensures size == table.Length == olookup.Length == oidlookup.Length >= 4 && table[i].value == pairs[a] && oidlookup != olookup
      ensures Family(OLinks(table[..]), olookup[..], olists, OHomes(table[..], ohash)) && Holds(table[..], pairs)
      ensures Family(OidLinks(table[..]), oidlookup[..], oidlists, OidHomes(table[..], oidhash))
      ensures Spare(OLinks(table[..]), free, spare, OHomes(table[..], ohash)) && |spare| == size - 1 - count && count == |pairs|
    {
      hide Family, Spare;
      i :| 0 <= i < size && table[i].value != NIL && table[i].key == a;
      FirstUnused(OLinks(table[..]), olookup[..], olists, OHomes(table[..], ohash));
      assert i != 0;
      hide Holds;
      HoldsAt(table[..], pairs, i);
    }

    static lemma FirstUnused(links: seq<int>, heads: seq<int>, lists: seq<seq<int>>, home: seq<int>)
      requires Family(links, heads, lists, home)
      ensures |home| > 0 && home[0] == NONE
    {
    }
  }
}
