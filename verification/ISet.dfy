/** The expanding hash set of vm/iset.c and iteration over it while deleting
    (the ISetForEach macro of vm/iset.h). */
module IntSet {
  import opened Probing

  const NIL: int := 0

  function MaxFill(size: nat): (r: nat)
    ensures size >= 4 ==> 0 < r < size
  {
    size * 17 / 20
  }

  lemma MaxFillGrows(size: nat)
    requires size >= 4
    ensures MaxFill(size) < MaxFill(2 * size)
  {
  }

  ghost predicate Agrees(keys: seq<int>, contents: set<int>) {
    forall k :: k in contents <==> k != NIL && k in keys
  }

  lemma AgreesPut(keys: seq<int>, contents: set<int>, s: nat, key: int)
    requires Agrees(keys, contents) && Unique(keys, NIL)
    requires s < |keys| && key != NIL
    requires keys[s] == key || (keys[s] == NIL && key !in contents)
    ensures Agrees(keys[s := key], contents + {key}) && Unique(keys[s := key], NIL)
  {
    var keys' := keys[s := key];
    assert keys'[s] == key;
    forall k | k in contents
      ensures k in keys'
    {
      var i :| 0 <= i < |keys| && keys[i] == k;
      assert keys'[i] == k || k == key;
    }
    assert keys[s] == NIL ==> key !in keys;
  }

  lemma AgreesDrop(keys: seq<int>, contents: set<int>, s: nat)
    requires Agrees(keys, contents) && Unique(keys, NIL)
    requires s < |keys| && keys[s] != NIL
    ensures Agrees(keys[s := NIL], contents - {keys[s]}) && Unique(keys[s := NIL], NIL)
  {
    var keys' := keys[s := NIL];
    forall k | k in contents - {keys[s]}
      ensures k in keys'
    {
      var i :| 0 <= i < |keys| && keys[i] == k;
      assert keys'[i] == k;
    }
  }

  /** The keys of the first `i` slots. */
  ghost function Collected(keys: seq<int>, i: nat): set<int>
    requires i <= |keys|
  {
    set j | 0 <= j < i && keys[j] != NIL :: keys[j]
  }

  lemma {:induction false} CollectedSize(keys: seq<int>, i: nat)
    requires i <= |keys| && Unique(keys, NIL)
    ensures |Collected(keys, i)| == Used(keys[..i], NIL)
  {
    if i > 0 {
      CollectedSize(keys, i - 1);
      assert keys[..i][..i - 1] == keys[..i - 1];
      if keys[i - 1] == NIL {
        assert Collected(keys, i) == Collected(keys, i - 1);
      } else {
        assert Collected(keys, i) == Collected(keys, i - 1) + {keys[i - 1]};
      }
    }
  }

  lemma {:induction false} UsedPrefix(keys: seq<int>, i: nat)
    requires i < |keys|
    ensures Used(keys[..i], NIL) + (if keys[i] != NIL then 1 else 0) <= Used(keys, NIL)
    decreases |keys|
  {
    var m := |keys| - 1;
    if i < m {
      assert keys[..m][..i] == keys[..i];
      UsedPrefix(keys[..m], i);
    }
  }

  lemma CollectedStep(keys: seq<int>, i: nat)
    requires i < |keys| && Unique(keys, NIL)
    ensures keys[i] == NIL ==> Collected(keys, i + 1) == Collected(keys, i)
    ensures keys[i] != NIL ==> && Collected(keys, i + 1) == Collected(keys, i) + {keys[i]}
                               && keys[i] !in Collected(keys, i)
                               && |Collected(keys, i)| < Used(keys, NIL)
  {
    CollectedSize(keys, i);
    UsedPrefix(keys, i);
  }

  lemma CollectedAll(keys: seq<int>, contents: set<int>)
    requires Agrees(keys, contents)
    ensures Collected(keys, |keys|) == contents
  {
    forall k | k in contents
      ensures k in Collected(keys, |keys|)
    {
      var i :| 0 <= i < |keys| && keys[i] == k;
      assert keys[i] in Collected(keys, |keys|);
    }
  }

  class ISet {
    const hash: int -> nat
    var keys: array<int>
    var size: nat
    var maxCount: nat
    var count: nat
    ghost var contents: set<int>

    ghost function Repr(): set<object>
      reads this
    {
      {this, keys}
    }

    /** Everything but the findability of the keys. */
    ghost predicate Shape()
      reads this, keys
    {
      && keys.Length == size
      && size >= 4 && maxCount == MaxFill(size)
      && count <= maxCount
      && count == Used(keys[..], NIL) == |contents|
      && Unique(keys[..], NIL)
      && Agrees(keys[..], contents)
    }

    ghost predicate Valid()
      reads this, keys
    {
      Shape() && AllFindable(hash, keys[..], NIL)
    }

    constructor (n: nat, hash: int -> nat)
      ensures Valid() && fresh(Repr())
      ensures contents == {} && this.hash == hash
      ensures size >= n && (size == 4 || (size % 2 == 0 && size / 2 < n)) && maxCount == size * 17 / 20
    {
      this.hash := hash;
      var sz := 4;
      while sz < n
        invariant sz == 4 || (sz >= 4 && sz % 2 == 0 && sz / 2 < n)
      {
        sz := 2 * sz;
      }
      size := sz;
      maxCount := MaxFill(sz);
      count := 0;
      contents := {};
      keys := new int[sz](_ => NIL);
      new;
      UsedEmpty(keys[..], NIL);
    }

    method Probe(key: int) returns (index: nat)
      requires Shape()
      ensures index < size && StopsAt(hash, keys[..], NIL, key, index)
      ensures keys[index] == NIL || keys[index] == key
      ensures Valid() && key != NIL ==> (keys[index] == key <==> key in contents)
    {
      hide Unique, AllFindable, Used, MaxFill, Steps, Next, Home, Passes;
      index := Home(hash, size, key);
      ghost var z := FindEmpty();
      PassesHome(hash, keys[..], NIL, key);
      while keys[index] != NIL && keys[index] != key
        invariant index < size && Passes(hash, keys[..], NIL, key, index)
        decreases size - Steps(size, Home(hash, size, key), index)
      {
        PassesNext(hash, keys[..], NIL, key, index, z);
        index := Next(size, index);
      }
      if Valid() && key != NIL {
        StopDecides(hash, keys[..], NIL, key, index);
      }
    }

    ghost method FindEmpty() returns (z: nat)
      requires Shape()
      ensures z < size && keys[z] == NIL
    {
      if NIL !in keys[..] {
        UsedFull(keys[..], NIL);
        assert false;
      }
      z :| 0 <= z < |keys[..]| && keys[..][z] == NIL;
    }

    method Member(key: int) returns (r: bool)
      requires Valid() && key != NIL
      ensures r == (key in contents)
    {
      var index := Probe(key);
      r := keys[index] != NIL;
    }

    /** Inserts `key` unless it is there; in the middle of a rehash, a key known
        to be absent. */
    method Insert(key: int) returns (ghost slot: nat)
      requires Shape() && key != NIL
      requires Valid() || (key !in contents && count < maxCount)
      modifies Repr()
      ensures Shape() && fresh(Repr() - old(Repr()))
      ensures old(Valid()) ==> Valid()
      ensures contents == old(contents) + {key}
      ensures size == (if old(count) >= old(size) * 17 / 20 then 2 * old(size) else old(size)) && maxCount == size * 17 / 20
      ensures old(count) < old(maxCount)
              ==> && keys == old(keys) && size == old(size) && maxCount == old(maxCount)
                  && slot < size && StopsAt(hash, old(keys[..]), NIL, key, slot)
                  && keys[..] == old(keys[..])[slot := key]
    {
      if count >= maxCount {
        ExpandHashTable();
      }
      slot := Place(key);
    }

    method Place(key: int) returns (ghost slot: nat)
      requires Shape() && key != NIL && count < maxCount
      requires Valid() || key !in contents
      modifies this, keys
      ensures Shape() && keys == old(keys)
      ensures old(Valid()) ==> Valid()
      ensures size == old(size) && maxCount == old(maxCount)
      ensures contents == old(contents) + {key}
      ensures slot < size && StopsAt(hash, old(keys[..]), NIL, key, slot)
      ensures keys[..] == old(keys[..])[slot := key]
    {
      hide AllFindable, Unique, Used, StopsAt, MaxFill;
      var index := Probe(key);
      slot := index;
      ghost var before := keys[..];
      AgreesPut(before, contents, index, key);
      UsedUpdate(before, NIL, index, key);
      if Valid() {
        PlaceKeepsFindable(hash, before, NIL, key, index);
      }
      contents := contents + {key};
      if keys[index] == NIL {
        keys[index] := key;
        count := count + 1;
      }
      assert keys[..] == before[index := key];
    }

    method ExpandHashTable()
      requires Valid()
      modifies this
      ensures Valid() && fresh(keys)
      ensures contents == old(contents) && count == old(count)
      ensures size == 2 * old(size) && count < maxCount
    {
      hide AllFindable, Unique, StopsAt, Used, MaxFill;
      MaxFillGrows(size);
      var oldKeys, oldSize := keys, size;
      ghost var ks := keys[..];
      CollectedAll(ks, contents);
      Renew(2 * size);
      var i := 0;
      assert contents == Collected(ks, 0);
      while i < oldSize
        invariant 0 <= i <= oldSize == |ks|
        invariant Valid() && fresh(keys) && size == 2 * oldSize
        invariant oldKeys[..] == ks
        invariant contents == Collected(ks, i)
      {
        Reenter(oldKeys[i], ks, i);
        i := i + 1;
      }
    }

    method Reenter(key: int, ghost ks: seq<int>, ghost i: nat)
      requires Valid() && i < |ks| && key == ks[i]
      requires Unique(ks, NIL) && Used(ks, NIL) <= maxCount && contents == Collected(ks, i)
      modifies this, keys
      ensures Valid() && keys == old(keys) && size == old(size)
      ensures contents == Collected(ks, i + 1)
    {
      CollectedStep(ks, i);
      if key != NIL {
        var _ := Place(key);
      }
    }

    method Renew(n: nat)
      requires n >= 4
      modifies this
      ensures Valid() && fresh(keys) && size == n && contents == {}
    {
      size := n;
      maxCount := MaxFill(n);
      keys := new int[n](_ => NIL);
      count := 0;
      contents := {};
      UsedEmpty(keys[..], NIL);
    }

    /** Removes `key` if it is there.  The keys of the rest of the cluster may
        move, but only back towards the emptied slot `d`. */
    method Delete(key: int) returns (ghost d: nat)
      requires Valid() && key != NIL
      modifies this, keys
      ensures Valid() && keys == old(keys) && size == old(size)
      ensures contents == old(contents) - {key}
      ensures key in old(contents) ==> && count == old(count) - 1
                                       && d < size && old(keys[..])[d] == key
                                       && MovedBack(old(keys[..]), keys[..], NIL, d)
    {
      hide AllFindable, Unique, StopsAt, Used, Rehashing, MovedBack;
      var index := Probe(key);
      d := index;
      if keys[index] == NIL {
        return;
      }
      ghost var orig := keys[..];
      ghost var z := FindEmpty();
      ghost var e := ClusterEnd(orig, NIL, d, 0);
      ghost var rest := contents - {key};
      RemoveAt(index);
      StartRehash(hash, orig, NIL, d, e);
      MovedBackStart(orig, NIL, d);
      ghost var idx: nat := d;
      index := Next(size, index);
      while keys[index] != NIL
        invariant Shape() && idx < size && index == Next(size, idx)
        invariant keys == old(keys) && size == old(size) && count == old(count) - 1
        invariant count < maxCount && contents == rest
        invariant Rehashing(hash, orig, keys[..], NIL, d, idx, e)
        invariant MovedBack(orig, keys[..], NIL, d)
        decreases size - Steps(size, d, idx)
      {
        Rehash(index, orig, d, idx, e);
        idx := index;
        index := Next(size, index);
      }
      RehashDone(hash, orig, keys[..], NIL, d, idx, e);
    }

    method Rehash(index: nat, ghost orig: seq<int>, ghost d: nat, ghost idx: nat, ghost e: nat)
      requires Shape() && count < maxCount
      requires idx < size && index == Next(size, idx) && keys[index] != NIL
      requires AllFindable(hash, orig, NIL) && Rehashing(hash, orig, keys[..], NIL, d, idx, e)
      requires MovedBack(orig, keys[..], NIL, d)
      modifies this, keys
      ensures Shape() && count < maxCount && contents == old(contents) && count == old(count)
      ensures keys == old(keys) && size == old(size)
      ensures Rehashing(hash, orig, keys[..], NIL, d, index, e)
      ensures MovedBack(orig, keys[..], NIL, d)
      ensures Steps(size, d, index) == Steps(size, d, idx) + 1
    {
      hide AllFindable, Unique, StopsAt, Used, MovedBack;
      ghost var cur, all := keys[..], contents;
      var k := keys[index];
      assert cur[index] == k && k in contents;
      RemoveAt(index);
      ghost var slot := Insert(k);
      RehashLandsInside(hash, orig, cur, NIL, d, idx, e, slot);
      RehashStep(hash, orig, cur, NIL, d, idx, e, slot);
      MovedBackStep(orig, cur, NIL, d, index, slot);
      assert contents == all;
    }

    method RemoveAt(index: nat)
      requires Shape() && index < size && keys[index] != NIL
      modifies this, keys
      ensures Shape() && keys == old(keys)
      ensures size == old(size) && maxCount == old(maxCount) && count == old(count) - 1
      ensures keys[..] == old(keys[..])[index := NIL]
      ensures contents == old(contents) - {old(keys[index])}
    {
      ghost var before := keys[..];
      AgreesDrop(before, contents, index);
      UsedUpdate(before, NIL, index, NIL);
      contents := contents - {keys[index]};
      keys[index] := NIL;
      count := count - 1;
      assert keys[..] == before[index := NIL];
    }

    /** prepareMsg of vm/distgc.c: walks the table by slot index, writing the
        keys that still have an OID and deleting the others; after a deletion
        the index is stepped back so that the slot is looked at again.
        Deletions move other keys, possibly around the end of the table, yet
        every survivor is written and nothing else is. */
    method PrepareMsg(hasOid: int -> bool) returns (written: seq<int>)
      requires Valid()
      modifies this, keys
      ensures Valid() && keys == old(keys) && size == old(size)
      ensures contents == set k | k in old(contents) && hasOid(k)
      ensures forall k :: k in written <==> k in contents
    {
      hide AllFindable, Unique, Used, MovedBack;
      ghost var all := contents;
      written := [];
      var i := 0;
      while i < size
        invariant 0 <= i <= size && Valid() && keys == old(keys) && size == old(size)
        invariant forall k :: k in all && hasOid(k) ==> k in contents
        invariant contents <= all
        invariant forall k :: k in written ==> k in contents && hasOid(k)
        invariant forall t :: 0 <= t < i && keys[t] != NIL ==> keys[t] in written
        decreases count, size - i
      {
        if keys[i] != NIL {
          var o := keys[i];
          assert o in keys[..];
          if !hasOid(o) {
            ghost var before := keys[..];
            ghost var d := Delete(o);
            assert d == i by { SameSlot(before, d, i); }
            forall t | 0 <= t < i && keys[t] != NIL
              ensures keys[t] in written
            {
              NothingNewBelow(before, keys[..], NIL, d, t);
            }
          } else {
            written := written + [o];
            i := i + 1;
          }
        } else {
          i := i + 1;
        }
      }
      forall k | k in contents
        ensures k in written && hasOid(k)
      {
        assert k in keys[..];
      }
      forall k
        ensures k in contents <==> k in all && hasOid(k)
      {
      }
    }

    static lemma SameSlot(keys: seq<int>, d: nat, i: nat)
      requires d < |keys| && i < |keys| && keys[d] == keys[i] != NIL && Unique(keys, NIL)
      ensures d == i
    {
    }
  }
}
