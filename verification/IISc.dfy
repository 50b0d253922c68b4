/** The searchable collection of vm/iisc.c: an expanding hash table from int to
    int, probed linearly, whose deletion rehashes the rest of the cluster. */
module IntTable {
  import opened Probing

  const NIL: int := -1

  /** The largest number of entries a table of `size` slots may hold. */
  function MaxFill(size: nat): (r: nat)
    ensures size >= 4 ==> 0 < r < size
  {
    size * 17 / 20
  }

  lemma MaxFillGrows(size: nat)
    requires size >= 4
    ensures MaxFill(size) < MaxFill(2 * size)
  {
  }

  /** `contents` is what the occupied slots say. */
  ghost predicate Agrees(keys: seq<int>, values: seq<int>, contents: map<int, int>) {
    && |values| == |keys|
    && (forall i :: 0 <= i < |keys| && keys[i] != NIL
                    ==> keys[i] in contents && contents[keys[i]] == values[i])
    && (forall k :: k in contents ==> k != NIL && k in keys)
  }

  lemma AgreesKeys(keys: seq<int>, values: seq<int>, contents: map<int, int>, key: int)
    requires Agrees(keys, values, contents) && key != NIL
    ensures key in contents <==> key in keys
  {
  }

  lemma AgreesPut(keys: seq<int>, values: seq<int>, contents: map<int, int>, s: nat, key: int, value: int)
    requires Agrees(keys, values, contents) && Unique(keys, NIL)
    requires s < |keys| && key != NIL
    requires keys[s] == key || (keys[s] == NIL && key !in contents)
    ensures Agrees(keys[s := key], values[s := value], contents[key := value])
    ensures Unique(keys[s := key], NIL)
  {
    var keys' := keys[s := key];
    assert keys'[s] == key;
    forall k | k in contents && k != key
      ensures k in keys'
    {
      var i :| 0 <= i < |keys| && keys[i] == k;
      assert keys'[i] == k;
    }
    assert keys[s] == NIL ==> key !in keys;
  }

  lemma AgreesDrop(keys: seq<int>, values: seq<int>, contents: map<int, int>, s: nat)
    requires Agrees(keys, values, contents) && Unique(keys, NIL)
    requires s < |keys| && keys[s] != NIL
    ensures Agrees(keys[s := NIL], values[s := NIL], contents - {keys[s]})
    ensures Unique(keys[s := NIL], NIL)
  {
    var keys' := keys[s := NIL];
    forall k | k in contents - {keys[s]}
      ensures k in keys'
    {
      var i :| 0 <= i < |keys| && keys[i] == k;
      assert keys'[i] == k;
    }
  }

  /** The entries of the first `i` slots. */
  ghost function Collected(keys: seq<int>, values: seq<int>, i: nat): (m: map<int, int>)
    requires i <= |keys| == |values|
  {
    if i == 0 then map[]
    else if keys[i - 1] == NIL then Collected(keys, values, i - 1)
    else Collected(keys, values, i - 1)[keys[i - 1] := values[i - 1]]
  }

  lemma {:induction false} CollectedDomain(keys: seq<int>, values: seq<int>, i: nat)
    requires i <= |keys| == |values| && Unique(keys, NIL)
    ensures forall k :: k in Collected(keys, values, i) <==> k != NIL && k in keys[..i]
    ensures |Collected(keys, values, i)| == Used(keys[..i], NIL)
  {
    if i > 0 {
      CollectedDomain(keys, values, i - 1);
      UsedStep(keys, i - 1);
      assert keys[..i] == keys[..i - 1] + [keys[i - 1]];
      NotBefore(keys, i - 1);
    }
  }

  lemma NotBefore(keys: seq<int>, i: nat)
    requires i < |keys| && Unique(keys, NIL)
    ensures keys[i] != NIL ==> keys[i] !in keys[..i]
  {
  }

  lemma UsedStep(keys: seq<int>, u: nat)
    requires u < |keys|
    ensures Used(keys[..u + 1], NIL) == Used(keys[..u], NIL) + (if keys[u] != NIL then 1 else 0)
  {
    assert keys[..u + 1][..u] == keys[..u];
  }

  lemma CollectedStep(keys: seq<int>, values: seq<int>, i: nat)
    requires i < |keys| == |values| && Unique(keys, NIL) && keys[i] != NIL
    ensures keys[i] !in Collected(keys, values, i)
    ensures |Collected(keys, values, i)| < Used(keys, NIL)
  {
    CollectedDomain(keys, values, i);
    UsedPrefix(keys, i);
  }

  lemma {:induction false} UsedPrefix(keys: seq<int>, i: nat)
    requires i < |keys|
    ensures Used(keys[..i], NIL) + (if keys[i] != NIL then 1 else 0) <= Used(keys, NIL)
    decreases |keys|
  {
    var m := |keys| - 1;
    if i < m {
      assert keys[..m][..i] == keys[..i];
      UsedPrefix(keys[..m], i);
    }
  }

  lemma {:induction false} CollectedAgrees(keys: seq<int>, values: seq<int>, contents: map<int, int>, i: nat)
    requires Agrees(keys, values, contents)
    requires i <= |keys| == |values|
    ensures forall k :: k in Collected(keys, values, i) ==> k in contents && Collected(keys, values, i)[k] == contents[k]
  {
    if i > 0 {
      CollectedAgrees(keys, values, contents, i - 1);
    }
  }

  /** Collecting every slot gives the contents. */
  lemma CollectedAll(keys: seq<int>, values: seq<int>, contents: map<int, int>)
    requires Agrees(keys, values, contents) && Unique(keys, NIL)
    ensures Collected(keys, values, |keys|) == contents
  {
    CollectedDomain(keys, values, |keys|);
    CollectedAgrees(keys, values, contents, |keys|);
    assert keys[..|keys|] == keys;
    var all := Collected(keys, values, |keys|);
    forall k
      ensures k in all <==> k in contents
      ensures k in all ==> all[k] == contents[k]
    {
      assert k in all ==> k in keys[..|keys|];
      assert k in contents ==> k in keys[..|keys|];
    }
    assert all == contents;
  }

  class IISc {
    const hash: int -> nat
    var keys: array<int>
    var values: array<int>
    var size: nat
    var maxCount: nat
    var count: nat
    ghost var contents: map<int, int>

    ghost function Repr(): set<object>
      reads this
    {
      {this, keys, values}
    }

    /** Everything but the findability of the keys. */
    ghost predicate Shape()
      reads this, keys, values
    {
      && keys != values
      && keys.Length == values.Length == size
      && size >= 4 && maxCount == MaxFill(size)
      && count <= maxCount
      && count == Used(keys[..], NIL) == |contents|
      && Unique(keys[..], NIL)
      && Agrees(keys[..], values[..], contents)
    }

    ghost predicate Valid()
      reads this, keys, values
    {
      Shape() && AllFindable(hash, keys[..], NIL)
    }

    lemma Shaped()
      requires Valid()
      ensures Shape()
    {
    }

    lemma ContentsInSlots()
      requires Valid()
      ensures forall k :: k in contents ==> k in keys[..]
    {
    }

    constructor (howbig: nat, hash: int -> nat)
      ensures Valid() && fresh(Repr())
      ensures contents == map[] && this.hash == hash
      ensures size >= howbig && (size == 4 || (size % 2 == 0 && size / 2 < howbig)) && maxCount == size * 17 / 20
    {
      this.hash := hash;
      var n := 4;
      while n < howbig
        invariant n == 4 || (n >= 4 && n % 2 == 0 && n / 2 < howbig)
      {
        n := 2 * n;
      }
      size := n;
      maxCount := MaxFill(n);
      count := 0;
      contents := map[];
      keys := new int[n](_ => NIL);
      values := new int[n](_ => NIL);
      new;
      UsedEmpty(keys[..], NIL);
    }

    /** The loop every operation starts with: from the key's home slot to the
        first slot that is empty or holds the key. */
    method Probe(key: int) returns (index: nat)
      requires Shape()
      ensures index < size && StopsAt(hash, keys[..], NIL, key, index)
      ensures keys[index] == NIL || keys[index] == key
      ensures Valid() && key != NIL ==> (keys[index] == key <==> key in contents)
    {
      hide Agrees, Unique, AllFindable, Used, MaxFill, Steps, Next, Home, Passes;
      index := Home(hash, size, key);
      ghost var z := FindEmpty();
      PassesHome(hash, keys[..], NIL, key);
      while keys[index] != NIL && keys[index] != key
        invariant index < size && Passes(hash, keys[..], NIL, key, index)
        decreases size - Steps(size, Home(hash, size, key), index)
      {
        PassesNext(hash, keys[..], NIL, key, index, z);
        index := Next(size, index);
      }
      if Valid() && key != NIL {
        StopDecides(hash, keys[..], NIL, key, index);
        AgreesKeys(keys[..], values[..], contents, key);
      }
    }

    ghost method FindEmpty() returns (z: nat)
      requires Shape()
      ensures z < size && keys[z] == NIL
    {
      if NIL !in keys[..] {
        UsedFull(keys[..], NIL);
        assert false;
      }
      z :| 0 <= z < |keys[..]| && keys[..][z] == NIL;
    }

    /** The value of `key`, or NIL. */
    method Lookup(key: int) returns (r: int)
      requires Valid()
      ensures r == if key in contents then contents[key] else NIL
    {
      var index := Probe(key);
      if keys[index] == NIL {
        r := NIL;
      } else {
        r := values[index];
      }
    }

    /** Inserts or overwrites.  While a deletion is rehashing, the other keys
        of the cluster may not be findable; a key known to be absent can still
        be inserted provided the fill limit is not reached, and then the table
        is not expanded. */
    method Insert(key: int, value: int) returns (ghost slot: nat)
      requires Shape() && key != NIL
      requires Valid() || (key !in contents && count < maxCount)
      modifies Repr()
      ensures Shape() && fresh(Repr() - old(Repr()))
      ensures old(Valid()) ==> Valid()
      ensures contents == old(contents)[key := value]
      ensures size == (if old(count) >= old(size) * 17 / 20 then 2 * old(size) else old(size)) && maxCount == size * 17 / 20
      ensures old(count) < old(maxCount)
              ==> && keys == old(keys) && values == old(values)
                  && size == old(size) && maxCount == old(maxCount)
                  && slot < size && StopsAt(hash, old(keys[..]), NIL, key, slot)
                  && keys[..] == old(keys[..])[slot := key]
    {
      if count >= maxCount {
        ExpandHashTable();
      }
      slot := Place(key, value);
    }

    /** The insertion once there is room: fills the slot where the probe stops. */
    method Place(key: int, value: int) returns (ghost slot: nat)
      requires Shape() && key != NIL && count < maxCount
      requires Valid() || key !in contents
      modifies this, keys, values
      ensures Shape() && keys == old(keys) && values == old(values)
      ensures old(Valid()) ==> Valid()
      ensures size == old(size) && maxCount == old(maxCount)
      ensures contents == old(contents)[key := value]
      ensures slot < size && StopsAt(hash, old(keys[..]), NIL, key, slot)
      ensures keys[..] == old(keys[..])[slot := key]
    {
      hide AllFindable, Unique, Used, StopsAt, MaxFill;
      var index := Probe(key);
      slot := index;
      ghost var before, valuesBefore := keys[..], values[..];
      AgreesPut(before, valuesBefore, contents, index, key, value);
      UsedUpdate(before, NIL, index, key);
      if Valid() {
        PlaceKeepsFindable(hash, before, NIL, key, index);
      }
      contents := contents[key := value];
      if keys[index] == NIL {
        keys[index] := key;
        count := count + 1;
      }
      values[index] := value;
      assert keys[..] == before[index := key];
      assert values[..] == valuesBefore[index := value];
    }

    /** Re-enters every element into a table of the next size. */
    method ExpandHashTable()
      requires Valid()
      modifies this
      ensures Valid() && fresh(keys) && fresh(values)
      ensures contents == old(contents) && count == old(count)
      ensures size == 2 * old(size) && count < maxCount
    {
      hide AllFindable, Agrees, Unique, StopsAt, Used, MaxFill;
      MaxFillGrows(size);
      var oldKeys, oldValues, oldSize := keys, values, size;
      ghost var ks, vs, all := keys[..], values[..], contents;
      CollectedAll(ks, vs, all);
      Renew(2 * size);
      var i := 0;
      assert contents == Collected(ks, vs, 0);
      while i < oldSize
        invariant 0 <= i <= oldSize == |ks| == |vs|
        invariant Valid() && fresh(keys) && fresh(values)
        invariant size == 2 * oldSize
        invariant oldKeys[..] == ks && oldValues[..] == vs
        invariant contents == Collected(ks, vs, i)
      {
        Reenter(oldKeys[i], oldValues[i], ks, vs, i);
        i := i + 1;
      }
    }

    /** Enters the element of old slot `i`, if it holds one. */
    method Reenter(key: int, value: int, ghost ks: seq<int>, ghost vs: seq<int>, ghost i: nat)
      requires Valid() && i < |ks| == |vs| && key == ks[i] && value == vs[i]
      requires Unique(ks, NIL) && Used(ks, NIL) <= maxCount && contents == Collected(ks, vs, i)
      modifies this, keys, values
      ensures Valid() && keys == old(keys) && values == old(values)
      ensures size == old(size) && contents == Collected(ks, vs, i + 1)
    {
      if key != NIL {
        CollectedStep(ks, vs, i);
        var _ := Place(key, value);
      }
    }

    /** An empty table of `n` slots in place of the old one. */
    method Renew(n: nat)
      requires n >= 4
      modifies this
      ensures Valid() && fresh(keys) && fresh(values)
      ensures size == n && contents == map[]
    {
      size := n;
      maxCount := MaxFill(n);
      keys := new int[n](_ => NIL);
      values := new int[n](_ => NIL);
      count := 0;
      contents := map[];
      UsedEmpty(keys[..], NIL);
    }

    /** Adds one to the value of `key`, or inserts 1. */
    method Bump(key: int) returns (r: int)
      requires Valid() && key != NIL
      modifies Repr()
      ensures Valid() && fresh(Repr() - old(Repr()))
      ensures r == (if key in old(contents) then old(contents)[key] + 1 else 1)
      ensures contents == old(contents)[key := r]
    {
      var index := Probe(key);
      if keys[index] == NIL {
        var _ := Insert(key, 1);
        r := 1;
      } else {
        r := values[index] + 1;
        Overwrite(index, r);
      }
    }

    /** Adds `value` to the value of `key`.  When the key is absent `value` is
        inserted but 1 is returned. */
    method BumpBy(key: int, value: int) returns (r: int)
      requires Valid() && key != NIL
      modifies Repr()
      ensures Valid() && fresh(Repr() - old(Repr()))
      ensures key in old(contents) ==> r == old(contents)[key] + value && contents == old(contents)[key := r]
      ensures key !in old(contents) ==> r == 1 && contents == old(contents)[key := value]
    {
      var index := Probe(key);
      if keys[index] == NIL {
        var _ := Insert(key, value);
        r := 1;
      } else {
        r := values[index] + value;
        Overwrite(index, r);
      }
    }

    method Overwrite(index: nat, value: int)
      requires Valid() && index < size && keys[index] != NIL
      modifies this, values
      ensures Valid() && keys == old(keys) && values == old(values)
      ensures contents == old(contents)[keys[index] := value]
    {
      ghost var valuesBefore := values[..];
      AgreesPut(keys[..], values[..], contents, index, keys[index], value);
      assert keys[..][index := keys[index]] == keys[..];
      values[index] := value;
      contents := contents[keys[index] := value];
      assert values[..] == valuesBefore[index := value];
    }

    /** Removes `key` if it is there: the slot is emptied and the rest of its
        cluster is removed and inserted again, one key at a time. */
    method Delete(key: int)
      requires Valid() && key != NIL
      modifies Repr()
      ensures Valid() && keys == old(keys) && values == old(values) && size == old(size)
      ensures contents == old(contents) - {key}
    {
      hide AllFindable, Unique, StopsAt, Used, Agrees, Rehashing;
      var index := Probe(key);
      if keys[index] == NIL {
        return;
      }
      ghost var orig, d := keys[..], index;
      ghost var z := FindEmpty();
      ghost var e := ClusterEnd(orig, NIL, d, 0);
      ghost var rest := contents - {key};
      RemoveAt(index);
      StartRehash(hash, orig, NIL, d, e);
      ghost var idx := d;
      index := Next(size, index);
      while keys[index] != NIL
        invariant Shape() && idx < size && index == Next(size, idx)
        invariant keys == old(keys) && values == old(values) && size == old(size)
        invariant count < maxCount
        invariant contents == rest
        invariant Rehashing(hash, orig, keys[..], NIL, d, idx, e)
        decreases size - Steps(size, d, idx)
      {
        Rehash(index, orig, d, idx, e);
        idx := index;
        index := Next(size, index);
      }
      RehashDone(hash, orig, keys[..], NIL, d, idx, e);
    }

    /** Removes the key of slot `index` and inserts it again. */
    method Rehash(index: nat, ghost orig: seq<int>, ghost d: nat, ghost idx: nat, ghost e: nat)
      requires Shape() && count < maxCount
      requires idx < size && index == Next(size, idx) && keys[index] != NIL
      requires AllFindable(hash, orig, NIL) && Rehashing(hash, orig, keys[..], NIL, d, idx, e)
      modifies this, keys, values
      ensures Shape() && count < maxCount && contents == old(contents)
      ensures keys == old(keys) && values == old(values) && size == old(size)
      ensures Rehashing(hash, orig, keys[..], NIL, d, index, e)
      ensures Steps(size, d, index) == Steps(size, d, idx) + 1
    {
      hide AllFindable, Unique, StopsAt, Used;
      ghost var cur, all := keys[..], contents;
      var k, value := keys[index], values[index];
      assert cur[index] == k && k in contents && contents[k] == value;
      RemoveAt(index);
      ghost var slot := Insert(k, value);
      RehashLandsInside(hash, orig, cur, NIL, d, idx, e, slot);
      RehashStep(hash, orig, cur, NIL, d, idx, e, slot);
      assert contents == all;
    }

    /** Empties an occupied slot, whatever that does to the others' paths. */
    method RemoveAt(index: nat)
      requires Shape() && index < size && keys[index] != NIL
      modifies this, keys, values
      ensures Shape() && keys == old(keys) && values == old(values)
      ensures size == old(size) && maxCount == old(maxCount) && count == old(count) - 1
      ensures keys[..] == old(keys[..])[index := NIL]
      ensures contents == old(contents) - {old(keys[index])}
    {
      ghost var before, valuesBefore := keys[..], values[..];
      AgreesDrop(before, valuesBefore, contents, index);
      UsedUpdate(before, NIL, index, NIL);
      contents := contents - {keys[index]};
      keys[index] := NIL;
      values[index] := NIL;
      count := count - 1;
      assert keys[..] == before[index := NIL];
      assert values[..] == valuesBefore[index := NIL];
    }
  }
}
