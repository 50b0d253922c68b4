/** The slot order of a circular open-addressing table, and what it takes for
    a key to be found again.  Shared by the map of vm/iisc.c and the set of
    vm/iset.c, which run the same probing algorithm. */
module Probing {

  /** How many times a probe starting at `from` must advance to reach `to`. */
  function Steps(n: nat, from: nat, to: nat): (r: nat)
    requires from < n && to < n
    ensures r < n
  {
    if from <= to then to - from else n - from + to
  }

  /** The slot after `i`, wrapping to slot 0. */
  function Next(n: nat, i: nat): (r: nat)
    requires i < n
    ensures r < n
  {
    if i + 1 >= n then 0 else i + 1
  }

  function Home(hash: int -> nat, n: nat, key: int): (r: nat)
    requires n > 0
    ensures r < n
  {
    hash(key) % n
  }

  /** Number of occupied slots. */
  function Used(keys: seq<int>, nil: int): (r: nat)
    ensures r <= |keys|
  {
    if keys == [] then 0
    else Used(keys[..|keys| - 1], nil) + (if keys[|keys| - 1] != nil then 1 else 0)
  }

  lemma {:induction false} UsedUpdate(keys: seq<int>, nil: int, i: nat, k: int)
    requires i < |keys|
    ensures Used(keys[i := k], nil)
         == Used(keys, nil) - (if keys[i] != nil then 1 else 0) + (if k != nil then 1 else 0)
  {
    var m := |keys| - 1;
    var keys' := keys[i := k];
    if i < m {
      assert keys'[..m] == keys[..m][i := k];
      UsedUpdate(keys[..m], nil, i, k);
    } else {
      assert keys'[..m] == keys[..m];
    }
  }

  lemma {:induction false} UsedFull(keys: seq<int>, nil: int)
    requires nil !in keys
    ensures Used(keys, nil) == |keys|
  {
    if keys != [] {
      UsedFull(keys[..|keys| - 1], nil);
    }
  }

  lemma {:induction false} UsedEmpty(keys: seq<int>, nil: int)
    requires forall i :: 0 <= i < |keys| ==> keys[i] == nil
    ensures Used(keys, nil) == 0
  {
    if keys != [] {
      UsedEmpty(keys[..|keys| - 1], nil);
    }
  }

  ghost predicate Unique(keys: seq<int>, nil: int) {
    forall i, j :: 0 <= i < j < |keys| && keys[i] != nil ==> keys[i] != keys[j]
  }

  /** Every slot a probe for `key` visits before slot `i` is occupied. */
  ghost predicate OpenPath(hash: int -> nat, keys: seq<int>, nil: int, key: int, i: nat)
    requires i < |keys|
  {
    var h := Home(hash, |keys|, key);
    forall s :: 0 <= s < |keys| && Steps(|keys|, h, s) < Steps(|keys|, h, i) ==> keys[s] != nil
  }

  /** Every key is reachable by probing from its home slot. */
  ghost predicate AllFindable(hash: int -> nat, keys: seq<int>, nil: int) {
    forall i :: 0 <= i < |keys| && keys[i] != nil ==> OpenPath(hash, keys, nil, keys[i], i)
  }

  /** A probe for `key` goes past every slot before slot `i`. */
  ghost predicate Passes(hash: int -> nat, keys: seq<int>, nil: int, key: int, i: nat)
    requires i < |keys|
  {
    var h := Home(hash, |keys|, key);
    forall t :: 0 <= t < |keys| && Steps(|keys|, h, t) < Steps(|keys|, h, i)
                ==> keys[t] != nil && keys[t] != key
  }

  /** `s` is where a probe for `key` stops: the first slot, in probe order,
      that is empty or holds `key`. */
  ghost predicate StopsAt(hash: int -> nat, keys: seq<int>, nil: int, key: int, s: nat)
    requires s < |keys|
  {
    (keys[s] == nil || keys[s] == key) && Passes(hash, keys, nil, key, s)
  }

  lemma PassesHome(hash: int -> nat, keys: seq<int>, nil: int, key: int)
    requires keys != []
    ensures Passes(hash, keys, nil, key, Home(hash, |keys|, key))
  {
  }

  /** A probe that has not stopped advances, and stays short of any empty slot. */
  lemma PassesNext(hash: int -> nat, keys: seq<int>, nil: int, key: int, i: nat, z: nat)
    requires i < |keys| && z < |keys| && keys[z] == nil
    requires keys[i] != nil && keys[i] != key && Passes(hash, keys, nil, key, i)
    ensures var h := Home(hash, |keys|, key);
            Steps(|keys|, h, i) < Steps(|keys|, h, Next(|keys|, i)) <= Steps(|keys|, h, z)
    ensures Passes(hash, keys, nil, key, Next(|keys|, i))
  {
  }

  /** The slots it goes past are those from the hash value, taken modulo the
      size, up to `s`, round the end of the table if `s` comes before it. */
  lemma StopsWhere(hash: int -> nat, keys: seq<int>, nil: int, key: int, s: nat)
    requires s < |keys|
    ensures StopsAt(hash, keys, nil, key, s) <==>
              var h := hash(key) % |keys|;
              && (keys[s] == nil || keys[s] == key)
              && forall t :: 0 <= t < |keys| && (if h <= s then h <= t < s else t >= h || t < s) ==> keys[t] != nil && keys[t] != key
  {
    var h := hash(key) % |keys|;
    assert h == Home(hash, |keys|, key);
    assert forall t :: 0 <= t < |keys| ==> (Steps(|keys|, h, t) < Steps(|keys|, h, s) <==> if h <= s then h <= t < s else t >= h || t < s);
  }

  /** Every key can be found: no slot from its hash value to where it is is empty. */
  lemma FindableMeans(hash: int -> nat, keys: seq<int>, nil: int, i: nat, t: nat)
    requires AllFindable(hash, keys, nil) && i < |keys| && keys[i] != nil && t < |keys|
    ensures var h := hash(keys[i]) % |keys|;
            (if h <= i then h <= t < i else t >= h || t < i) ==> keys[t] != nil
  {
    assert OpenPath(hash, keys, nil, keys[i], i);
    assert hash(keys[i]) % |keys| == Home(hash, |keys|, keys[i]);
  }

  /** A probe that stops tells the truth about membership. */
  lemma StopDecides(hash: int -> nat, keys: seq<int>, nil: int, key: int, s: nat)
    requires s < |keys| && key != nil
    requires AllFindable(hash, keys, nil)
    requires StopsAt(hash, keys, nil, key, s)
    ensures keys[s] == key <==> key in keys
  {
    if key in keys {
      var i :| 0 <= i < |keys| && keys[i] == key;
      assert OpenPath(hash, keys, nil, keys[i], i);
    }
  }

  /** Filling the stopping slot keeps every key findable. */
  lemma PlaceKeepsFindable(hash: int -> nat, keys: seq<int>, nil: int, key: int, s: nat)
    requires s < |keys| && key != nil
    requires AllFindable(hash, keys, nil)
    requires StopsAt(hash, keys, nil, key, s)
    ensures AllFindable(hash, keys[s := key], nil)
  {
    var keys' := keys[s := key];
    forall i | 0 <= i < |keys'| && keys'[i] != nil
      ensures OpenPath(hash, keys', nil, keys'[i], i)
    {
      if i != s {
        assert OpenPath(hash, keys, nil, keys[i], i);
      }
    }
  }

  // ----- deletion: emptying slot d and rehashing the rest of its cluster -----

  /** Slots strictly between `idx` and the end `e` of the cluster that began at
      `d`: their keys still wait to be removed and inserted again. */
  ghost predicate Pending(n: nat, d: nat, idx: nat, e: nat, t: nat)
    requires d < n && idx < n && e < n && t < n
  {
    Steps(n, d, idx) < Steps(n, d, t) < Steps(n, d, e)
  }

  /** The state of the rehash loop after slot `idx`.  `orig` is the table
      before the deletion, `e` the first empty slot after `d`. */
  ghost predicate Rehashing(hash: int -> nat, orig: seq<int>, keys: seq<int>, nil: int,
                            d: nat, idx: nat, e: nat)
  {
    && var n := |orig|;
    && |keys| == n && d < n && idx < n && e < n
    && Steps(n, d, idx) < Steps(n, d, e)
    && orig[d] != nil && orig[e] == nil
    && (forall t :: 0 <= t < n && Steps(n, d, t) < Steps(n, d, e) ==> orig[t] != nil)
    && (forall t :: 0 <= t < n && Steps(n, d, idx) < Steps(n, d, t) ==> keys[t] == orig[t])
    && (forall i :: 0 <= i < n && keys[i] != nil && !Pending(n, d, idx, e, i)
                    ==> OpenPath(hash, keys, nil, keys[i], i))
  }

  /** A probe path that crosses slot `j` of a cluster and ends before meeting
      the cluster's end `e` ends inside the cluster, beyond `j`. */
  lemma StaysInCluster(n: nat, h: nat, d: nat, j: nat, e: nat, i: nat)
    requires h < n && d < n && j < n && e < n && i < n && i != e
    requires Steps(n, h, j) < Steps(n, h, i) <= Steps(n, h, e)
    requires Steps(n, d, j) < Steps(n, d, e)
    ensures Pending(n, d, j, e, i)
  {
  }

  /** A probe path that ends at slot `j` of a cluster without meeting its end
      `e`, seen from the cluster's start: whatever it visits is either before
      the cluster or no later in it than `j`. */
  lemma EndsInCluster(n: nat, h: nat, d: nat, j: nat, e: nat, s: nat)
    requires h < n && d < n && j < n && e < n && s < n && s != e
    requires Steps(n, h, s) <= Steps(n, h, j) <= Steps(n, h, e)
    requires Steps(n, d, j) < Steps(n, d, e)
    ensures Steps(n, d, s) <= Steps(n, d, j) || Steps(n, d, e) < Steps(n, d, s)
  {
  }

  /** The first empty slot after an occupied one. */
  lemma {:induction false} ClusterEnd(keys: seq<int>, nil: int, d: nat, k: nat) returns (e: nat)
    requires d < |keys| && keys[d] != nil && nil in keys
    requires k < |keys|
    requires forall t :: 0 <= t < |keys| && Steps(|keys|, d, t) < k ==> keys[t] != nil
    ensures e < |keys| && keys[e] == nil
    ensures forall t :: 0 <= t < |keys| && Steps(|keys|, d, t) < Steps(|keys|, d, e) ==> keys[t] != nil
    decreases |keys| - k
  {
    var n := |keys|;
    var c := if d + k < n then d + k else d + k - n;
    assert Steps(n, d, c) == k;
    if keys[c] == nil {
      e := c;
    } else {
      var z :| 0 <= z < n && keys[z] == nil;
      assert k < Steps(n, d, z) < n;
      e := ClusterEnd(keys, nil, d, k + 1);
    }
  }

  /** Emptying a slot starts the rehash: only the keys of the same cluster
      beyond it can have lost their path. */
  lemma StartRehash(hash: int -> nat, orig: seq<int>, nil: int, d: nat, e: nat)
    requires d < |orig| && e < |orig| && orig[d] != nil && orig[e] == nil
    requires AllFindable(hash, orig, nil)
    requires forall t :: 0 <= t < |orig| && Steps(|orig|, d, t) < Steps(|orig|, d, e) ==> orig[t] != nil
    ensures Rehashing(hash, orig, orig[d := nil], nil, d, d, e)
  {
    var n := |orig|;
    var keys := orig[d := nil];
    forall i | 0 <= i < n && keys[i] != nil && !Pending(n, d, d, e, i)
      ensures OpenPath(hash, keys, nil, keys[i], i)
    {
      assert OpenPath(hash, orig, nil, orig[i], i);
      var h := Home(hash, n, keys[i]);
      if Steps(n, h, d) < Steps(n, h, i) {
        StaysInCluster(n, h, d, d, e, i);
        assert false;
      }
    }
  }

  /** One round of the rehash loop: the key of the next slot `j` is taken out
      and put back where its probe stops, which is never beyond `j`. */
  lemma RehashStep(hash: int -> nat, orig: seq<int>, keys: seq<int>, nil: int,
                   d: nat, idx: nat, e: nat, s: nat)
    requires Rehashing(hash, orig, keys, nil, d, idx, e)
    requires AllFindable(hash, orig, nil)
    requires Unique(keys, nil)
    requires keys[Next(|orig|, idx)] != nil && s < |orig|
    requires StopsAt(hash, keys[Next(|orig|, idx) := nil], nil, keys[Next(|orig|, idx)], s)
    ensures var j := Next(|orig|, idx);
            && Steps(|orig|, d, s) <= Steps(|orig|, d, j)
            && keys[j := nil][s] == nil
            && Rehashing(hash, orig, keys[j := nil][s := keys[j]], nil, d, j, e)
  {
    var n := |orig|;
    var j := Next(n, idx);
    var k := keys[j];
    var mid := keys[j := nil];
    assert Steps(n, d, j) == Steps(n, d, idx) + 1;
    RehashLandsInside(hash, orig, keys, nil, d, idx, e, s);
    var keys' := mid[s := k];
    forall i | 0 <= i < n && keys'[i] != nil && !Pending(n, d, j, e, i)
      ensures OpenPath(hash, keys', nil, keys'[i], i)
    {
      if i != s {
        MovePastGap(hash, keys, nil, d, j, e, s, k, i);
      }
    }
  }

  /** A settled key keeps its path while slot `j` is emptied and `s` filled. */
  lemma MovePastGap(hash: int -> nat, keys: seq<int>, nil: int,
                    d: nat, j: nat, e: nat, s: nat, k: int, i: nat)
    requires d < |keys| && j < |keys| && e < |keys| && s < |keys| && i < |keys|
    requires i != s && i != j && k != nil
    requires keys[e] == nil && keys[i] != nil && OpenPath(hash, keys, nil, keys[i], i)
    requires Steps(|keys|, d, j) < Steps(|keys|, d, e)
    requires !Pending(|keys|, d, j, e, i)
    ensures OpenPath(hash, keys[j := nil][s := k], nil, keys[i], i)
  {
    var n := |keys|;
    var h := Home(hash, n, keys[i]);
    if Steps(n, h, j) < Steps(n, h, i) {
      StaysInCluster(n, h, d, j, e, i);
      assert false;
    }
  }

  /** The probe for the key taken out of slot `j` stops inside the cluster. */
  lemma RehashLandsInside(hash: int -> nat, orig: seq<int>, keys: seq<int>, nil: int,
                          d: nat, idx: nat, e: nat, s: nat)
    requires Rehashing(hash, orig, keys, nil, d, idx, e)
    requires AllFindable(hash, orig, nil)
    requires Unique(keys, nil)
    requires keys[Next(|orig|, idx)] != nil && s < |orig|
    requires StopsAt(hash, keys[Next(|orig|, idx) := nil], nil, keys[Next(|orig|, idx)], s)
    ensures var j := Next(|orig|, idx);
            && Steps(|orig|, d, s) <= Steps(|orig|, d, j) == Steps(|orig|, d, idx) + 1 < Steps(|orig|, d, e)
            && keys[j := nil][s] == nil
  {
    var n := |orig|;
    var j := Next(n, idx);
    var k := keys[j];
    var h := Home(hash, n, k);
    assert Steps(n, d, j) == Steps(n, d, idx) + 1;
    assert keys[j] == orig[j];
    assert OpenPath(hash, orig, nil, orig[j], j);
    // the probe for k cannot run past j, which has been emptied
    assert keys[j := nil][j] == nil;
    assert Steps(n, h, s) <= Steps(n, h, j) <= Steps(n, h, e);
    if s != j {
      assert keys[s] != k;
      assert Steps(n, h, s) < Steps(n, h, j) by { SameSteps(n, h, s, j); }
      assert orig[s] != nil;
      EndsInCluster(n, h, d, j, e, s);
      assert keys[s] == nil;
    }
  }

  lemma SameSteps(n: nat, h: nat, s: nat, t: nat)
    requires h < n && s < n && t < n && s != t
    ensures Steps(n, h, s) != Steps(n, h, t)
  {
  }

  /** When the next slot is empty the cluster is done and every key is
      findable again. */
  lemma RehashDone(hash: int -> nat, orig: seq<int>, keys: seq<int>, nil: int, d: nat, idx: nat, e: nat)
    requires Rehashing(hash, orig, keys, nil, d, idx, e)
    requires keys[Next(|orig|, idx)] == nil
    ensures Next(|orig|, idx) == e
    ensures AllFindable(hash, keys, nil)
  {
    var n := |orig|;
    var j := Next(n, idx);
    assert Steps(n, d, j) == Steps(n, d, idx) + 1;
    assert Steps(n, d, idx) < Steps(n, d, j);
    assert keys[j] == orig[j];
    assert Steps(n, d, j) >= Steps(n, d, e);
  }

  /** Rehashing after a deletion at `d` only ever moves keys back towards `d`,
      in probe order. */
  ghost predicate MovedBack(orig: seq<int>, keys: seq<int>, nil: int, d: nat) {
    && |keys| == |orig| && d < |orig|
    && forall t :: 0 <= t < |keys| && keys[t] != nil ==> CameFrom(orig, d, keys[t], t)
  }

  ghost predicate CameFrom(orig: seq<int>, d: nat, key: int, t: nat)
    requires d < |orig| && t < |orig|
  {
    exists u :: 0 <= u < |orig| && orig[u] == key && Steps(|orig|, d, t) <= Steps(|orig|, d, u)
  }

  /** A key in slot `t` was before in slot `t` or one behind it, counted from `d`. */
  lemma MovedBackMeans(orig: seq<int>, keys: seq<int>, nil: int, d: nat, t: nat) returns (u: nat)
    requires MovedBack(orig, keys, nil, d) && t < |keys| && keys[t] != nil
    ensures u < |orig| && orig[u] == keys[t] && if d <= u then d <= t <= u else d <= t || t <= u
  {
    assert CameFrom(orig, d, keys[t], t);
    u :| 0 <= u < |orig| && orig[u] == keys[t] && Steps(|orig|, d, t) <= Steps(|orig|, d, u);
  }

  lemma MovedBackStart(orig: seq<int>, nil: int, d: nat)
    requires d < |orig|
    ensures MovedBack(orig, orig[d := nil], nil, d)
  {
  }

  lemma MovedBackStep(orig: seq<int>, keys: seq<int>, nil: int, d: nat, j: nat, s: nat)
    requires MovedBack(orig, keys, nil, d)
    requires j < |keys| && s < |keys| && keys[j] != nil
    requires Steps(|keys|, d, s) <= Steps(|keys|, d, j)
    ensures MovedBack(orig, keys[j := nil][s := keys[j]], nil, d)
  {
    assert CameFrom(orig, d, keys[j], j);
  }

  /** Below slot `d` a deletion at `d` leaves only keys that were there before. */
  lemma NothingNewBelow(orig: seq<int>, keys: seq<int>, nil: int, d: nat, t: nat)
    requires MovedBack(orig, keys, nil, d)
    requires t < d && keys[t] != nil
    ensures keys[t] in orig[..d]
  {
    assert CameFrom(orig, d, keys[t], t);
    var u :| 0 <= u < |orig| && orig[u] == keys[t] && Steps(|orig|, d, t) <= Steps(|orig|, d, u);
    assert u < d;
    assert orig[..d][u] == keys[t];
  }
}
