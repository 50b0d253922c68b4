/** The size table of vm/iixsc.c.  Small sizes are counted in an array, large
    ones in a hash table; for the selection of a best fit it is compacted into
    one array of (size, count) pairs sorted by size. */
module SizeTable {
  import opened IntTable
  import opened Probing

  const SMALLONES: nat := 2 * 1024 + 3
  const TERMINATOR: int := 0x7fffffff

  datatype Pair = Pair(size: int, value: int)

  /** The count of size `k`. */
  function At(counts: map<int, int>, k: int): int {
    if k in counts then counts[k] else 0
  }

  /** What a lookup before compaction answers for a size never inserted. */
  function Absent(k: int): int {
    if k < SMALLONES then 0 else NIL
  }

  ghost predicate Sorted(pairs: seq<Pair>, top: nat) {
    top <= |pairs| && forall i, j :: 0 <= i < j < top ==> pairs[i].size < pairs[j].size
  }

  /** Before compaction: the array and the hash table hold `counts`. */
  ghost predicate Loose(small: seq<int>, big: map<int, int>, counts: map<int, int>) {
    && |small| == SMALLONES
    && (forall k :: 0 <= k < SMALLONES ==> small[k] == At(counts, k))
    && (forall k :: k in counts ==> k >= 0)
    && (forall k :: k in big <==> k in counts && k >= SMALLONES)
    && (forall k :: k in big ==> big[k] == counts[k])
  }

  /** The sorted part `pairs[..top]`, its fixed first entry and the terminator. */
  ghost predicate Framed(pairs: seq<Pair>, bigstart: nat, top: nat) {
    && 1 <= bigstart <= top < |pairs|
    && pairs[0] == Pair(0, 0)
    && Sorted(pairs, top)
    && (forall i :: 1 <= i < bigstart ==> pairs[i].size < SMALLONES)
    && (forall i :: bigstart <= i < top ==> SMALLONES <= pairs[i].size < TERMINATOR)
  }

  /** `home` is the position of each size in the sorted part. */
  ghost predicate Placed(pairs: seq<Pair>, top: nat, home: map<int, nat>)
    requires top <= |pairs|
  {
    && (forall i :: 1 <= i < top ==> pairs[i].size in home && home[pairs[i].size] == i)
    && (forall k :: k in home ==> 1 <= home[k] < top && pairs[home[k]].size == k)
  }

  /** Where the array entry of small size `k` points: at the pair of `k`, or, if
      `k` had no entry, at the first pair of a larger size. */
  ghost predicate Points(pairs: seq<Pair>, top: nat, k: int, p: int) {
    && 1 <= p <= top && p < |pairs|
    && (forall i :: 0 < i < p && i < top ==> pairs[i].size < k)
    && (p < top ==> pairs[p].size >= k)
  }

  /** After compaction: the pairs hold `counts`. */
  ghost predicate Compacted(small: seq<int>, big: map<int, int>, pairs: seq<Pair>, bigstart: nat, top: nat,
                            home: map<int, nat>, counts: map<int, int>)
  {
    && |small| == SMALLONES
    && Framed(pairs, bigstart, top) && Placed(pairs, top, home)
    && (forall i :: top <= i < |pairs| ==> pairs[i] == Pair(0, 0) || pairs[i] == Pair(TERMINATOR, 0))
    && (forall k :: 0 <= k < SMALLONES ==> Points(pairs, top, k, small[k]))
    && (forall k :: 0 <= k < SMALLONES && k in home ==> small[k] == home[k])
    && (forall k :: k in home && k >= SMALLONES ==> k in big && big[k] == home[k])
    && (forall k :: k in home ==> k >= 1 && pairs[home[k]].value == At(counts, k))
    && (forall k :: k !in home ==> At(counts, k) == 0)
  }

  /** The pairs and the counts say the same. */
  lemma CompactedPairs(small: seq<int>, big: map<int, int>, pairs: seq<Pair>, bigstart: nat, top: nat,
                       home: map<int, nat>, counts: map<int, int>)
    requires Compacted(small, big, pairs, bigstart, top, home, counts)
    ensures 1 <= top < |pairs| && pairs[0] == Pair(0, 0)
    ensures forall i :: top <= i < |pairs| ==> pairs[i].value == 0 && (pairs[i].size == 0 || pairs[i].size == TERMINATOR)
    ensures forall i :: 1 <= i < top ==> && pairs[i].size >= 1 && At(counts, pairs[i].size) == pairs[i].value
                                         && pairs[i].size in home && home[pairs[i].size] == i
    ensures forall k :: At(counts, k) != 0 ==> k in home
    ensures forall k :: k in home ==> 1 <= home[k] < top && pairs[home[k]].size == k
    ensures forall i, j :: 1 <= i < j < top ==> pairs[i].size < pairs[j].size
  {
  }

  // ----- compaction -----

  function NonZero(small: seq<int>): (r: nat)
    ensures r <= |small|
  {
    if small == [] then 0
    else NonZero(small[..|small| - 1]) + (if small[|small| - 1] != 0 then 1 else 0)
  }

  lemma {:induction false} NonZeroPrefix(small: seq<int>, k: nat)
    requires k < |small|
    ensures NonZero(small[..k + 1]) == NonZero(small[..k]) + (if small[k] != 0 then 1 else 0)
    ensures NonZero(small[..k + 1]) <= NonZero(small)
    decreases |small|
  {
    assert small[..k + 1][..k] == small[..k];
    if k + 1 < |small| {
      assert small[..|small| - 1][..k + 1] == small[..k + 1] && small[..|small| - 1][..k] == small[..k];
      NonZeroPrefix(small[..|small| - 1], k);
    } else {
      assert small[..k + 1] == small;
    }
  }

  /** The pairs built so far are the live sizes below `k`, in order. */
  ghost predicate SmallDone(pairs: seq<Pair>, small: seq<int>, k: nat, index: nat) {
    && k <= |small| && 1 <= index <= |pairs| && pairs[0] == Pair(0, 0)
    && Sorted(pairs, index)
    && (forall i :: 1 <= i < index ==> 1 <= pairs[i].size < k && small[pairs[i].size] == pairs[i].value != 0)
  }

  /** Where the array entry of the small size `k` points so far. */
  ghost predicate PointsSoFar(pairs: seq<Pair>, value: int, k: int, p: int, index: nat) {
    && 1 <= p <= index <= |pairs|
    && (forall i :: 0 < i < p ==> pairs[i].size < k)
    && (p < index ==> pairs[p].size >= k)
    && (value != 0 ==> p < index && pairs[p].size == k)
  }

  lemma SmallStart(pairs: seq<Pair>, small: seq<int>)
    requires pairs != [] && pairs[0] == Pair(0, 0)
    ensures SmallDone(pairs, small, 0, 1) && AllPoint(pairs, small, small, 0, 1)
  {
  }

  ghost predicate AllPoint(pairs: seq<Pair>, small: seq<int>, positions: seq<int>, k: nat, index: nat) {
    && k <= |small| == |positions|
    && (forall j :: 0 <= j < k ==> PointsSoFar(pairs, small[j], j, positions[j], index))
    && (forall j :: k <= j < |small| ==> positions[j] == small[j])
  }

  /** One round: size `k` gets a pair if it is live. */
  lemma SmallNext(pairs: seq<Pair>, small: seq<int>, positions: seq<int>, k: nat, index: nat)
    requires SmallDone(pairs, small, k, index) && AllPoint(pairs, small, positions, k, index)
    requires k < |small| && index < |pairs| && (small[k] != 0 ==> k >= 1)
    ensures small[k] == 0 ==> && SmallDone(pairs, small, k + 1, index)
                              && AllPoint(pairs, small, positions[k := index], k + 1, index)
    ensures small[k] != 0 ==> var pairs' := pairs[index := Pair(k, small[k])];
                              && SmallDone(pairs', small, k + 1, index + 1)
                              && AllPoint(pairs', small, positions[k := index], k + 1, index + 1)
  {
    if small[k] != 0 {
      var pairs' := pairs[index := Pair(k, small[k])];
      forall j | 0 <= j < k
        ensures PointsSoFar(pairs', small[j], j, positions[j], index + 1)
      {
        assert PointsSoFar(pairs, small[j], j, positions[j], index);
      }
    }
  }

  /** The live large sizes among the keys `seen` are all in place. */
  ghost predicate BigDone(pairs: seq<Pair>, bigstart: nat, index: nat, big: map<int, int>, seen: seq<int>) {
    && 1 <= bigstart <= index && Sorted(pairs, index)
    && (forall i :: bigstart <= i < index ==> IsLive(pairs[i], big) && pairs[i].size in seen)
    && (forall k :: k in seen && k in big && big[k] > 0 ==> HasPair(pairs, bigstart, index, Pair(k, big[k])))
  }

  ghost predicate IsLive(p: Pair, big: map<int, int>) {
    p.size in big && big[p.size] == p.value > 0
  }

  ghost predicate HasPair(pairs: seq<Pair>, bigstart: nat, index: nat, x: Pair) {
    exists i :: bigstart <= i < index && i < |pairs| && pairs[i] == x
  }

  /** `pairs'` is `pairs` with `x` put at position `pos` of its first `index`
      entries, where it belongs. */
  ghost predicate PutAt(pairs: seq<Pair>, pairs': seq<Pair>, index: nat, x: Pair, pos: nat) {
    && |pairs'| == |pairs| && 1 <= pos <= index < |pairs|
    && (forall i :: 0 <= i < pos ==> pairs'[i] == pairs[i])
    && pairs'[pos] == x
    && (forall i :: pos < i <= index ==> pairs'[i] == pairs[i - 1])
    && (forall i :: index < i < |pairs| ==> pairs'[i] == pairs[i])
    && (forall i :: 1 <= i < pos ==> pairs[i].size <= x.size)
    && (forall i :: pos <= i < index ==> pairs[i].size > x.size)
  }

  lemma PutAtAbove(pairs: seq<Pair>, pairs': seq<Pair>, index: nat, x: Pair, pos: nat, start: nat)
    requires PutAt(pairs, pairs', index, x, pos) && start <= index
    requires forall i :: 1 <= i < start ==> pairs[i].size < x.size
    ensures pos >= start
  {
    var atPos := pairs[pos];
  }

  lemma PutAtSorted(pairs: seq<Pair>, pairs': seq<Pair>, index: nat, x: Pair, pos: nat)
    requires PutAt(pairs, pairs', index, x, pos) && Sorted(pairs, index)
    requires pairs[0].size < x.size && forall i :: 1 <= i < index ==> pairs[i].size != x.size
    ensures Sorted(pairs', index + 1)
  {
    forall i, j | 0 <= i < j < index + 1
      ensures pairs'[i].size < pairs'[j].size
    {
      var i0, j0 := if i > pos then i - 1 else i, if j > pos then j - 1 else j;
      if i != pos && j != pos {
        assert pairs[i0].size < pairs[j0].size;
      }
    }
  }

  lemma BigNext(pairs: seq<Pair>, pairs': seq<Pair>, bigstart: nat, index: nat,
                big: map<int, int>, seen: seq<int>, key: int, pos: nat)
    requires BigDone(pairs, bigstart, index, big, seen)
    requires key in big && big[key] > 0 && key !in seen
    requires PutAt(pairs, pairs', index, Pair(key, big[key]), pos) && bigstart <= pos
    requires pairs[0].size < key && forall i :: 1 <= i < bigstart ==> pairs[i].size < key
    ensures BigDone(pairs', bigstart, index + 1, big, seen + [key])
  {
    assert forall i :: 1 <= i < index ==> pairs[i].size != key;
    PutAtSorted(pairs, pairs', index, Pair(key, big[key]), pos);
    forall i | bigstart <= i < index + 1
      ensures IsLive(pairs'[i], big) && pairs'[i].size in seen + [key]
    {
      var i0 := if i > pos then i - 1 else i;
      if i != pos {
        assert IsLive(pairs[i0], big) && pairs[i0].size in seen;
      }
    }
    forall k | k in seen + [key] && k in big && big[k] > 0
      ensures HasPair(pairs', bigstart, index + 1, Pair(k, big[k]))
    {
      if k != key {
        HasPairPut(pairs, pairs', bigstart, index, Pair(key, big[key]), pos, Pair(k, big[k]));
      }
    }
  }

  lemma HasPairPut(pairs: seq<Pair>, pairs': seq<Pair>, bigstart: nat, index: nat, x: Pair, pos: nat, y: Pair)
    requires PutAt(pairs, pairs', index, x, pos) && HasPair(pairs, bigstart, index, y)
    ensures HasPair(pairs', bigstart, index + 1, y)
  {
    var i :| bigstart <= i < index && pairs[i] == y;
    assert pairs'[if i >= pos then i + 1 else i] == y;
  }

  lemma BigSkip(pairs: seq<Pair>, bigstart: nat, index: nat, big: map<int, int>, seen: seq<int>, key: int)
    requires BigDone(pairs, bigstart, index, big, seen)
    requires key in big ==> big[key] <= 0
    ensures BigDone(pairs, bigstart, index, big, seen + [key])
  {
  }

  /** The position of every size of a sorted array of pairs. */
  ghost function Positions(pairs: seq<Pair>, top: nat): (home: map<int, nat>)
    requires top <= |pairs| && Sorted(pairs, top)
    ensures Placed(pairs, top, home)
  {
    map i: nat | 1 <= i < top :: pairs[i].size := i
  }

  ghost predicate Linked(pairs: seq<Pair>, bigstart: nat, top: nat, big: map<int, int>) {
    forall i :: bigstart <= i < top && i < |pairs| ==> pairs[i].size in big && big[pairs[i].size] == i
  }

  lemma SmallSorted(pairs: seq<Pair>, small: seq<int>, index: nat)
    requires SmallDone(pairs, small, SMALLONES, index)
    ensures 1 <= index <= |pairs| && pairs[0] == Pair(0, 0) && Sorted(pairs, index)
    ensures forall i :: 1 <= i < index ==> pairs[i].size < SMALLONES
  {
  }

  lemma BigSorted(pairs: seq<Pair>, bigstart: nat, index: nat, big: map<int, int>, seen: seq<int>)
    requires BigDone(pairs, bigstart, index, big, seen)
    ensures Sorted(pairs, index)
    ensures forall i :: bigstart <= i < index && i < |pairs| ==> pairs[i].size in big && pairs[i].size in seen
  {
  }

  lemma BigStart(pairs: seq<Pair>, bigstart: nat, big: map<int, int>)
    requires 1 <= bigstart && Sorted(pairs, bigstart)
    ensures BigDone(pairs, bigstart, bigstart, big, [])
  {
  }

  lemma LinkNext(pairs: seq<Pair>, bigstart: nat, top: nat, i: nat, big: map<int, int>)
    requires Sorted(pairs, top) && bigstart <= i < top && Linked(pairs, bigstart, i, big)
    ensures Linked(pairs, bigstart, i + 1, big[pairs[i].size := i])
  {
  }

  lemma LinkStart(pairs: seq<Pair>, bigstart: nat, big: map<int, int>)
    ensures Linked(pairs, bigstart, bigstart, big)
  {
  }

  /** The three passes, put together.  `pairs0` is the array after the first. */
  ghost predicate Passes3(small: seq<int>, positions: seq<int>, big: map<int, int>, links: map<int, int>,
                          keys: seq<int>, pairs0: seq<Pair>, pairs: seq<Pair>, bigstart: nat, top: nat)
  {
    && |pairs| == |pairs0| && bigstart <= top < |pairs|
    && SmallDone(pairs0, small, SMALLONES, bigstart)
    && AllPoint(pairs0, small, positions, SMALLONES, bigstart)
    && (forall i :: 0 <= i < bigstart ==> pairs[i] == pairs0[i])
    && BigDone(pairs, bigstart, top, big, keys)
    && (forall k :: k in big ==> k in keys)
    && Linked(pairs, bigstart, top, links)
    && (forall i :: top <= i < |pairs| ==> pairs[i] == Pair(0, 0) || pairs[i] == Pair(TERMINATOR, 0))
  }

  lemma PassesAll(small: seq<int>, positions: seq<int>, big: map<int, int>, links: map<int, int>,
                  keys: seq<int>, pairs0: seq<Pair>, pairs: seq<Pair>, bigstart: nat, top: nat)
    requires |pairs| == |pairs0| && bigstart <= top < |pairs|
    requires SmallDone(pairs0, small, SMALLONES, bigstart)
    requires AllPoint(pairs0, small, positions, SMALLONES, bigstart)
    requires forall i :: 0 <= i < bigstart ==> pairs[i] == pairs0[i]
    requires BigDone(pairs, bigstart, top, big, keys)
    requires forall k :: k in big ==> k in keys
    requires Linked(pairs, bigstart, top, links)
    requires forall i :: top <= i < |pairs| ==> pairs[i] == Pair(0, 0)
    ensures Passes3(small, positions, big, links, keys, pairs0, pairs, bigstart, top)
  {
  }

  /** The terminator disturbs none of the passes. */
  lemma Terminate(small: seq<int>, positions: seq<int>, big: map<int, int>, links: map<int, int>,
                  keys: seq<int>, pairs0: seq<Pair>, pairs: seq<Pair>, bigstart: nat, top: nat)
    requires Passes3(small, positions, big, links, keys, pairs0, pairs, bigstart, top)
    ensures Passes3(small, positions, big, links, keys, pairs0, pairs[|pairs| - 1 := Pair(TERMINATOR, 0)], bigstart, top)
  {
    hide SmallDone, AllPoint, HasPair;
    var pairs' := pairs[|pairs| - 1 := Pair(TERMINATOR, 0)];
    forall k | k in keys && k in big && big[k] > 0
      ensures HasPair(pairs', bigstart, top, Pair(k, big[k]))
    {
      HasPairKept(pairs, bigstart, top, Pair(k, big[k]), Pair(TERMINATOR, 0));
    }
  }

  lemma HasPairKept(pairs: seq<Pair>, bigstart: nat, top: nat, x: Pair, last: Pair)
    requires top < |pairs| && HasPair(pairs, bigstart, top, x)
    ensures HasPair(pairs[|pairs| - 1 := last], bigstart, top, x)
  {
    var i :| bigstart <= i < top && pairs[i] == x;
    assert pairs[|pairs| - 1 := last][i] == x;
  }

  lemma PassesPoint(small: seq<int>, positions: seq<int>, big: map<int, int>, links: map<int, int>,
                    keys: seq<int>, pairs0: seq<Pair>, pairs: seq<Pair>, bigstart: nat, top: nat, k: nat)
    requires Passes3(small, positions, big, links, keys, pairs0, pairs, bigstart, top)
    requires |small| == SMALLONES && k < SMALLONES && forall k :: k in big ==> k >= SMALLONES
    ensures Points(pairs, top, k, positions[k])
    ensures small[k] != 0 ==> 1 <= positions[k] < bigstart && pairs[positions[k]] == Pair(k, small[k])
  {
    assert PointsSoFar(pairs0, small[k], k, positions[k], bigstart);
    var p := positions[k];
    if p == bigstart < top {
      assert IsLive(pairs[p], big);
    }
  }

  lemma PairIsLive(small: seq<int>, positions: seq<int>, big: map<int, int>, links: map<int, int>,
                 keys: seq<int>, pairs0: seq<Pair>, pairs: seq<Pair>, bigstart: nat, top: nat, counts: map<int, int>, i: nat)
    requires Passes3(small, positions, big, links, keys, pairs0, pairs, bigstart, top)
    requires Loose(small, big, counts)
    requires forall k :: k in counts ==> 1 <= k < TERMINATOR && counts[k] >= 0
    requires 1 <= i < top
    ensures 1 <= pairs[i].size < TERMINATOR && pairs[i].value == At(counts, pairs[i].size) > 0
    ensures i < bigstart <==> pairs[i].size < SMALLONES
    ensures i >= bigstart ==> pairs[i].size in links && links[pairs[i].size] == i
  {
    if i >= bigstart {
      assert IsLive(pairs[i], big);
    }
  }

  lemma LiveHasPair(small: seq<int>, positions: seq<int>, big: map<int, int>, links: map<int, int>,
                 keys: seq<int>, pairs0: seq<Pair>, pairs: seq<Pair>, bigstart: nat, top: nat, counts: map<int, int>, k: int) returns (i: nat)
    requires Passes3(small, positions, big, links, keys, pairs0, pairs, bigstart, top)
    requires Loose(small, big, counts)
    requires forall k :: k in counts ==> 1 <= k < TERMINATOR && counts[k] >= 0
    requires At(counts, k) > 0
    ensures 1 <= i < top && pairs[i].size == k
  {
    if k < SMALLONES {
      PassesPoint(small, positions, big, links, keys, pairs0, pairs, bigstart, top, k);
      i := positions[k];
    } else {
      assert HasPair(pairs, bigstart, top, Pair(k, big[k]));
      i :| bigstart <= i < top && pairs[i] == Pair(k, big[k]);
    }
  }

  lemma PassesFramed(small: seq<int>, positions: seq<int>, big: map<int, int>, links: map<int, int>,
                 keys: seq<int>, pairs0: seq<Pair>, pairs: seq<Pair>, bigstart: nat, top: nat, counts: map<int, int>)
    requires Passes3(small, positions, big, links, keys, pairs0, pairs, bigstart, top)
    requires Loose(small, big, counts)
    requires forall k :: k in counts ==> 1 <= k < TERMINATOR && counts[k] >= 0
    ensures Framed(pairs, bigstart, top) && |small| == |positions| == SMALLONES
    ensures forall i :: top <= i < |pairs| ==> pairs[i] == Pair(0, 0) || pairs[i] == Pair(TERMINATOR, 0)
    ensures forall k :: k in big ==> k >= SMALLONES
    ensures forall k :: 0 <= k < SMALLONES ==> small[k] == At(counts, k)
  {
    forall i | bigstart <= i < top
      ensures SMALLONES <= pairs[i].size < TERMINATOR
    {
      PairIsLive(small, positions, big, links, keys, pairs0, pairs, bigstart, top, counts, i);
    }
  }

  lemma AssembleValues(small: seq<int>, positions: seq<int>, big: map<int, int>, links: map<int, int>,
                 keys: seq<int>, pairs0: seq<Pair>, pairs: seq<Pair>, bigstart: nat, top: nat, counts: map<int, int>, home: map<int, nat>)
    requires Passes3(small, positions, big, links, keys, pairs0, pairs, bigstart, top)
    requires Loose(small, big, counts)
    requires forall k :: k in counts ==> 1 <= k < TERMINATOR && counts[k] >= 0
    requires top <= |pairs| && Placed(pairs, top, home)
    ensures forall k :: k in home ==> && k >= 1 && pairs[home[k]].value == At(counts, k) > 0
                                      && (k >= SMALLONES ==> k in links && links[k] == home[k])
    ensures forall k :: k !in home ==> At(counts, k) == 0
  {
    hide Passes3, Loose;
    forall k | k in home
      ensures k >= 1 && pairs[home[k]].value == At(counts, k) > 0
      ensures k >= SMALLONES ==> k in links && links[k] == home[k]
    {
      PairIsLive(small, positions, big, links, keys, pairs0, pairs, bigstart, top, counts, home[k]);
    }
    forall k | k !in home
      ensures At(counts, k) == 0
    {
      if At(counts, k) > 0 {
        var i := LiveHasPair(small, positions, big, links, keys, pairs0, pairs, bigstart, top, counts, k);
        assert false;
      }
    }
  }

  lemma AssemblePoints(small: seq<int>, positions: seq<int>, big: map<int, int>, links: map<int, int>,
                 keys: seq<int>, pairs0: seq<Pair>, pairs: seq<Pair>, bigstart: nat, top: nat, counts: map<int, int>, home: map<int, nat>)
    requires Passes3(small, positions, big, links, keys, pairs0, pairs, bigstart, top)
    requires Loose(small, big, counts)
    requires forall k :: k in counts ==> 1 <= k < TERMINATOR && counts[k] >= 0
    requires top <= |pairs| && Placed(pairs, top, home)
    ensures forall k :: 0 <= k < SMALLONES ==> Points(pairs, top, k, positions[k])
    ensures forall k :: 0 <= k < SMALLONES && k in home ==> positions[k] == home[k]
  {
    hide Passes3, Points;
    PassesFramed(small, positions, big, links, keys, pairs0, pairs, bigstart, top, counts);
    forall k | 0 <= k < SMALLONES
      ensures Points(pairs, top, k, positions[k])
      ensures k in home ==> positions[k] == home[k]
    {
      PassesPoint(small, positions, big, links, keys, pairs0, pairs, bigstart, top, k);
      if k in home {
        PairIsLive(small, positions, big, links, keys, pairs0, pairs, bigstart, top, counts, home[k]);
      }
    }
  }

  /** All three passes together produce the compacted table. */
  lemma Assemble(small: seq<int>, positions: seq<int>, big: map<int, int>, links: map<int, int>,
                 keys: seq<int>, pairs0: seq<Pair>, pairs: seq<Pair>, bigstart: nat, top: nat, counts: map<int, int>)
      returns (home: map<int, nat>)
    requires Passes3(small, positions, big, links, keys, pairs0, pairs, bigstart, top)
    requires Loose(small, big, counts)
    requires forall k :: k in counts ==> 1 <= k < TERMINATOR && counts[k] >= 0
    ensures Compacted(positions, links, pairs, bigstart, top, home, counts)
    ensures forall k :: k in home <==> At(counts, k) > 0
  {
    hide Passes3, Loose, Points, Positions;
    PassesFramed(small, positions, big, links, keys, pairs0, pairs, bigstart, top, counts);
    home := Positions(pairs, top);
    AssembleValues(small, positions, big, links, keys, pairs0, pairs, bigstart, top, counts, home);
    AssemblePoints(small, positions, big, links, keys, pairs0, pairs, bigstart, top, counts, home);
  }

  class IIXSc {
    var smallOnes: array<int>
    var bigOnes: IISc
    var compacted: bool
    var bigstart: nat
    var count: nat
    var pairs: array<Pair>
    ghost var counts: map<int, int>
    ghost var home: map<int, nat>

    ghost var Repr: set<object>

    ghost function Parts(): set<object>
      reads this, bigOnes
    {
      {this, smallOnes, pairs} + bigOnes.Repr()
    }

    ghost predicate Apart()
      reads this, bigOnes
    {
      && smallOnes as object !in bigOnes.Repr() && pairs as object !in bigOnes.Repr()
      && this as object !in bigOnes.Repr()
    }

    ghost predicate Valid()
      reads this, Repr
      ensures Valid() ==> this in Repr
    {
      && this in Repr && bigOnes in Repr && Parts() <= Repr
      && Apart() && bigOnes.Valid()
      && if compacted then
           Compacted(smallOnes[..], bigOnes.contents, pairs[..], bigstart, count, home, counts)
         else
           Loose(smallOnes[..], bigOnes.contents, counts)
    }

    /** The entry after the pairs is unused, where otherwise the terminator is:
        when the table was compacted a large size had lost all its objects. */
    predicate Spare()
      reads this, pairs
    {
      compacted && count < pairs.Length && pairs[count].size == 0
    }

    constructor (hash: int -> nat)
      ensures Valid() && !compacted && counts == map[] && fresh(Repr)
    {
      hide IISc.Valid, Compacted;
      smallOnes := new int[SMALLONES](_ => 0);
      bigOnes := new IISc(1, hash);
      compacted := false;
      bigstart, count := 0, 0;
      pairs := new Pair[0];
      counts, home := map[], map[];
      new;
      Repr := Parts();
    }

    /** IIXScLookup.  After compaction a small size without a pair reads that of
        the next larger size. */
    method Lookup(key: int) returns (r: int)
      requires Valid() && key >= 0
      requires compacted ==> key < SMALLONES || key in home
      ensures !compacted ==> r == if key in counts then counts[key] else if key < SMALLONES then 0 else -1
      ensures compacted && key in home ==> r == if key in counts then counts[key] else 0
      ensures compacted && key !in home && (forall s :: s in home ==> s < key) ==> r == 0
      ensures compacted && key !in home ==> forall s :: s in home && s > key && (forall t :: t in home && t > key ==> s <= t)
                                                        ==> r == if s in counts then counts[s] else 0
    {
      hide IISc.Valid, Compacted, IsNext;
      if !compacted {
        if key < SMALLONES {
          r := smallOnes[key];
        } else {
          r := bigOnes.Lookup(key);
        }
        return;
      }
      CompactedAt(smallOnes[..], bigOnes.contents, pairs[..], bigstart, count, home, counts, key);
      var p: int;
      if key < SMALLONES {
        p := smallOnes[key];
      } else {
        p := bigOnes.Lookup(key);
      }
      r := pairs[..][p].value;
      if key !in home {
        NextMeans(home, counts, key, r);
      }
    }

    static lemma NextMeans(home: map<int, nat>, counts: map<int, int>, key: int, r: int)
      requires IsNext(home, counts, key, r)
      ensures (forall s :: s in home ==> s < key) ==> r == 0
      ensures forall s :: s in home && s > key && (forall t :: t in home && t > key ==> s <= t) ==> r == if s in counts then counts[s] else 0
    {
      forall s | s in home && s > key && (forall t :: t in home && t > key ==> s <= t)
        ensures r == At(counts, s)
      {
        if exists x :: x in home && r == At(counts, x) && FirstAbove(home, key, x) {
          var x :| x in home && r == At(counts, x) && FirstAbove(home, key, x);
          assert s == x;
        }
      }
    }

    /** `r` is the count of the first size above `key` that has a pair, or 0. */
    static ghost predicate IsNext(home: map<int, nat>, counts: map<int, int>, key: int, r: int) {
      (r == 0 && forall s :: s in home ==> s < key) || exists s :: s in home && r == At(counts, s) && FirstAbove(home, key, s)
    }

    static ghost predicate FirstAbove(home: map<int, nat>, key: int, s: int) {
      s > key && forall t :: t in home && t > key ==> s <= t
    }

    static lemma CompactedHome(small: seq<int>, big: map<int, int>, pairs: seq<Pair>, bigstart: nat, top: nat,
                               home: map<int, nat>, counts: map<int, int>, key: int)
      requires Compacted(small, big, pairs, bigstart, top, home, counts) && key in home
      ensures |small| == SMALLONES && key >= 1 && (key >= SMALLONES ==> key in big) && 1 <= home[key] < top <= |pairs|
      ensures (if key < SMALLONES then small[key] else big[key]) == home[key] && pairs[home[key]] == Pair(key, At(counts, key))
    {
    }

    static lemma CompactedAt(small: seq<int>, big: map<int, int>, pairs: seq<Pair>, bigstart: nat, top: nat,
                             home: map<int, nat>, counts: map<int, int>, key: int)
      requires Compacted(small, big, pairs, bigstart, top, home, counts) && 0 <= key && (key < SMALLONES || key in home)
      ensures key >= SMALLONES ==> key in big
      ensures |small| == SMALLONES && 0 <= (if key < SMALLONES then small[key] else big[key]) < |pairs|
      ensures var r := pairs[if key < SMALLONES then small[key] else big[key]].value;
              if key in home then r == At(counts, key) else IsNext(home, counts, key, r)
    {
      CompactedPairs(small, big, pairs, bigstart, top, home, counts);
      if key !in home {
        var p := small[key];
        assert Points(pairs, top, key, p);
        if p < top {
          assert pairs[p].size in home && FirstAbove(home, key, pairs[p].size);
        }
      }
    }

    method Insert(key: int, value: int)
      requires Valid() && !compacted && key >= 0
      modifies Repr
      ensures Valid() && !compacted && fresh(Repr - old(Repr))
      ensures counts == old(counts)[key := value]
    {
      hide IISc.Valid, IISc.Shape, Loose, Compacted;
      ghost var small, big, counts0 := smallOnes[..], bigOnes.contents, counts;
      InsertLoose(small, big, counts0, key, value);
      if key < SMALLONES {
        smallOnes[key] := value;
        assert smallOnes[..] == small[key := value];
      } else {
        bigOnes.Shaped();
        var _ := bigOnes.Insert(key, value);
      }
      counts := counts[key := value];
      Repr := Repr + Parts();
    }

    static lemma LooseAt(small: seq<int>, big: map<int, int>, counts: map<int, int>, key: int)
      requires Loose(small, big, counts) && key >= 0
      ensures |small| == SMALLONES && (key < SMALLONES ==> small[key] == At(counts, key))
      ensures key >= SMALLONES ==> (key in big <==> key in counts) && (key in big ==> big[key] == counts[key])
    {
    }

    static lemma InsertLoose(small: seq<int>, big: map<int, int>, counts: map<int, int>, key: int, value: int)
      requires Loose(small, big, counts) && key >= 0
      ensures |small| == SMALLONES
      ensures Loose(if key < SMALLONES then small[key := value] else small, if key < SMALLONES then big else big[key := value], counts[key := value])
    {
    }

    method BumpBy(key: int, value: int) returns (r: int)
      requires Valid() && key >= 0
      requires compacted ==> key in home
      modifies Repr
      ensures Valid() && compacted == old(compacted) && home == old(home)
      ensures fresh(Repr - old(Repr))
      ensures counts == old(counts)[key := (if key in old(counts) then old(counts)[key] else 0) + value]
      ensures r == if compacted || key < SMALLONES || key in old(counts) then counts[key] else 1
    {
      hide IISc.Valid, Compacted, Loose;
      if compacted {
        r := BumpPair(key, value);
        return;
      }
      ghost var small, big := smallOnes[..], bigOnes.contents;
      InsertLoose(small, big, counts, key, At(counts, key) + value);
      LooseAt(small, big, counts, key);
      if key < SMALLONES {
        smallOnes[key] := smallOnes[key] + value;
        assert smallOnes[..] == small[key := At(counts, key) + value];
        r := smallOnes[key];
      } else {
        r := bigOnes.BumpBy(key, value);
      }
      counts := counts[key := At(counts, key) + value];
      Repr := Repr + Parts();
    }

    method Bump(key: int) returns (r: int)
      requires Valid() && key >= 0
      requires compacted ==> key in home
      modifies Repr
      ensures Valid() && compacted == old(compacted) && home == old(home)
      ensures fresh(Repr - old(Repr))
      ensures counts == old(counts)[key := (if key in old(counts) then old(counts)[key] else 0) + 1] && r == counts[key]
    {
      hide IISc.Valid, Compacted, Loose;
      if compacted {
        r := BumpPair(key, 1);
        return;
      }
      ghost var small, big := smallOnes[..], bigOnes.contents;
      InsertLoose(small, big, counts, key, At(counts, key) + 1);
      LooseAt(small, big, counts, key);
      if key < SMALLONES {
        smallOnes[key] := smallOnes[key] + 1;
        assert smallOnes[..] == small[key := At(counts, key) + 1];
        r := smallOnes[key];
      } else {
        r := bigOnes.Bump(key);
      }
      counts := counts[key := r];
      Repr := Repr + Parts();
    }

    /** Bumping a size that was live at compaction touches its own pair only. */
    method BumpPair(key: int, value: int) returns (r: int)
      requires Valid() && compacted && key in home
      modifies this`counts, pairs
      ensures Valid() && compacted && home == old(home)
      ensures counts == old(counts)[key := At(old(counts), key) + value] && r == counts[key]
    {
      hide IISc.Valid, Compacted;
      CompactedHome(smallOnes[..], bigOnes.contents, pairs[..], bigstart, count, home, counts, key);
      var p: int;
      if key < SMALLONES {
        p := smallOnes[key];
      } else {
        p := bigOnes.Lookup(key);
      }
      SetValue(p, pairs[..][p].value + value);
      r := pairs[p].value;
    }

    method SetValue(p: int, value: int)
      requires Valid() && compacted && 1 <= p < count
      modifies this`counts, pairs
      ensures Valid() && pairs[p] == Pair(old(pairs[p].size), value) && Spare() == old(Spare())
      ensures counts == old(counts)[old(pairs[p].size) := value]
    {
      hide IISc.Valid;
      ghost var before := pairs[..];
      pairs[p] := pairs[p].(value := value);
      counts := counts[pairs[p].size := value];
      CompactedSet(smallOnes[..], bigOnes.contents, before, bigstart, count, home, old(counts), p, value);
      assert pairs[..] == before[p := before[p].(value := value)];
    }

    static lemma PointsSet(pairs: seq<Pair>, top: nat, k: int, q: int, p: nat, value: int)
      requires Points(pairs, top, k, q) && p < |pairs|
      ensures Points(pairs[p := pairs[p].(value := value)], top, k, q)
    {
    }

    static lemma CompactedSet(small: seq<int>, big: map<int, int>, pairs: seq<Pair>, bigstart: nat, top: nat,
                              home: map<int, nat>, counts: map<int, int>, p: nat, value: int)
      requires Compacted(small, big, pairs, bigstart, top, home, counts)
      requires 1 <= p < top
      ensures Compacted(small, big, pairs[p := pairs[p].(value := value)], bigstart, top, home,
                        counts[pairs[p].size := value])
    {
      hide Points;
      var pairs' := pairs[p := pairs[p].(value := value)];
      forall k | 0 <= k < SMALLONES
        ensures Points(pairs', top, k, small[k])
      {
        PointsSet(pairs, top, k, small[k], p, value);
      }
    }

    /** Position of the pair where a selection for `size` starts: its own pair
        if it has one, otherwise one with nothing below it of `size` or more,
        save for a pair the downward scan skips. */
    method Find(size: int) returns (r: nat)
      requires Valid() && compacted && size >= 0
      ensures (1 <= r <= count && r < pairs.Length) || (r == 0 && bigstart == 1)
      ensures r == count ==> size < SMALLONES && size !in home
      ensures size < SMALLONES ==> r >= 1 && (r < count ==> pairs[r].size >= size)
      ensures size in home ==> r == home[size]
      ensures size !in home ==> forall i :: 1 <= i < r && i < count ==> pairs[i].size < size
      ensures size !in home ==> forall i :: r < i < count ==> pairs[i].size > size
    {
      hide IISc.Valid, Compacted, Sorted;
      FindStart(smallOnes[..], bigOnes.contents, pairs[..], bigstart, count, home, counts, size);
      if size < SMALLONES {
        r := smallOnes[size];
        return;
      }
      var lb, ub := bigstart, count - 1;
      while lb < ub
        invariant bigstart <= lb <= ub + 1 <= count
        invariant size in home ==> lb <= home[size] <= ub
        invariant forall i :: 1 <= i < lb ==> pairs[i].size < size
        invariant forall i :: ub < i < count ==> pairs[i].size > size
        decreases ub - lb + 1
      {
        var try := (lb + ub) / 2;
        if pairs[try].size == size {
          return try;
        } else if pairs[try].size < size {
          SortedBelow(pairs[..], count, try, size);
          lb := try + 1;
        } else {
          SortedAbove(pairs[..], count, try, size);
          ub := try - 1;
        }
      }
      r := ub;
    }

    /** Where a search starts: a small size at its own pair or the next, and the
        large ones in order above all small ones. */
    static lemma FindStart(small: seq<int>, big: map<int, int>, pairs: seq<Pair>, bigstart: nat, top: nat,
                           home: map<int, nat>, counts: map<int, int>, size: int)
      requires Compacted(small, big, pairs, bigstart, top, home, counts) && size >= 0
      ensures |small| == SMALLONES && 1 <= bigstart <= top < |pairs| && Sorted(pairs, top)
      ensures size < SMALLONES ==> 1 <= small[size] <= top && (small[size] < top ==> pairs[small[size]].size >= size) && (size in home ==> small[size] == home[size])
                                   && forall i :: 1 <= i < small[size] && i < top ==> pairs[i].size < size
      ensures size < SMALLONES && size !in home ==> forall i :: small[size] < i < top ==> pairs[i].size > size
      ensures size in home ==> 1 <= home[size] < top && pairs[home[size]].size == size
      ensures forall i :: 1 <= i < top ==> pairs[i].size in home && home[pairs[i].size] == i
      ensures size >= SMALLONES ==> (forall i :: 1 <= i < bigstart ==> pairs[i].size < size) && (size in home ==> home[size] >= bigstart)
    {
      if size < SMALLONES {
        assert Points(pairs, top, size, small[size]);
      }
    }

    static lemma SortedBelow(s: seq<Pair>, top: nat, p: nat, size: int)
      requires Sorted(s, top) && p < top && s[p].size < size
      ensures forall i :: 0 <= i <= p ==> s[i].size < size
    {
    }

    static lemma SortedAbove(s: seq<Pair>, top: nat, p: nat, size: int)
      requires Sorted(s, top) && p < top && s[p].size > size
      ensures forall i :: p <= i < top ==> s[i].size > size
    {
    }

    /** Takes one object size that fits into `key` words: `key` itself if an
        object of that size is left, otherwise the largest live size of at most
        two words less, or, from eleven words on, at most half and two more; 0
        if there is none.  But a small size above all that have a pair is given
        the largest live size of all, however little that leaves over, if the
        entry after the pairs is unused. */
    method SelectSmaller(key: int) returns (size: int)
      requires Valid() && compacted && 1 <= key < TERMINATOR
      modifies Repr
      ensures Valid() && compacted && home == old(home) && Repr == old(Repr)
      ensures 0 <= size <= key
      ensures size == 0 ==> counts == old(counts)
      ensures size > 0 ==> && At(old(counts), size) > 0
                           && counts == old(counts)[size := At(old(counts), size) - 1]
      ensures At(old(counts), key) > 0 ==> size == key
      ensures At(old(counts), key) <= 0
              ==> forall s :: At(old(counts), s) > 0 && s <= (if key > 10 then key / 2 + 2 else key - 2) ==> s <= size
      ensures At(old(counts), key) <= 0 && size > 0 && !(old(Spare()) && key < SMALLONES && forall s :: s in home ==> s < key)
              ==> size <= if key > 10 then key / 2 + 2 else key - 2
      ensures At(old(counts), key) <= 0 && old(Spare()) && key < SMALLONES && (forall s :: s in home ==> s < key)
              ==> forall s :: At(old(counts), s) > 0 ==> s <= size
      ensures Spare() == old(Spare())
    {
      hide IISc.Valid, Compacted;
      CompactedPairs(smallOnes[..], bigOnes.contents, pairs[..], bigstart, count, home, counts);
      var r := FindLive(key);
      if r >= 0 {
        size := pairs[..][r].size;
        SetValue(r, pairs[r].value - 1);
      } else {
        size := 0;
      }
    }

    /** Position of the pair that is taken; -1 if there is none. */
    method FindLive(key: int) returns (r: int)
      requires Valid() && compacted && 1 <= key < TERMINATOR
      ensures -1 <= r < pairs.Length && (r >= 0 ==> 1 <= r < count && pairs[r].value > 0 && pairs[r].size <= key)
      ensures At(counts, key) > 0 ==> r >= 0 && pairs[r].size == key
      ensures At(counts, key) <= 0
              ==> forall s :: At(counts, s) > 0 && s <= (if key > 10 then key / 2 + 2 else key - 2) ==> r >= 0 && s <= pairs[r].size
      ensures At(counts, key) <= 0 && r >= 0 && !(Spare() && key < SMALLONES && forall s :: s in home ==> s < key)
              ==> pairs[r].size <= if key > 10 then key / 2 + 2 else key - 2
      ensures At(counts, key) <= 0 && Spare() && key < SMALLONES && (forall s :: s in home ==> s < key)
              ==> forall s :: At(counts, s) > 0 ==> r >= 0 && s <= pairs[r].size
    {
      hide IISc.Valid, Compacted, FoundAt, Pairs;
      ghost var all := pairs[..];
      CompactedIs(smallOnes[..], bigOnes.contents, all, bigstart, count, home, counts);
      r := Find(key);
      ghost var r0 := r;
      FoundStart(all, count, home, key, r0);
      if pairs[r].size != key || pairs[r].value <= 0 {
        NotLive(all, count, home, counts, key, r0);
        if key == 1 {
          // the scan of vm/iixsc.c would leave the array here
          OneNotLive(all, count, home, counts);
          return -1;
        }
        var firstprobe := if key > 10 then key / 2 + 2 else key - 2;
        r := SkipAbove(pairs, r, firstprobe);
      }
      ghost var r1 := r;
      r := SkipDead(pairs, r);
      if all[r0].size == key && all[r0].value > 0 {
        assert r == r0;
        IsHome(all, count, home, counts, key, r0);
      } else {
        Chosen(all, count, home, counts, key, r0, r1, r);
      }
    }

    static lemma CompactedIs(small: seq<int>, big: map<int, int>, pairs: seq<Pair>, bigstart: nat, top: nat,
                             home: map<int, nat>, counts: map<int, int>)
      requires Compacted(small, big, pairs, bigstart, top, home, counts)
      ensures Pairs(pairs, top, home, counts) && top < |pairs| && pairs[0] == Pair(0, 0)
    {
      CompactedPairs(small, big, pairs, bigstart, top, home, counts);
    }

    static lemma OneNotLive(pairs: seq<Pair>, top: nat, home: map<int, nat>, counts: map<int, int>)
      requires Pairs(pairs, top, home, counts)
      ensures forall s :: At(counts, s) > 0 ==> s >= 1 && s in home
    {
    }

    static lemma IsHome(pairs: seq<Pair>, top: nat, home: map<int, nat>, counts: map<int, int>, key: int, r: nat)
      requires Pairs(pairs, top, home, counts) && FoundAt(pairs, top, home, key, r) && key >= 1 && pairs[r].size == key && pairs[r].value > 0
      ensures 1 <= r < top && At(counts, key) > 0
    {
    }

    /** Where Find has ended: at the pair of the size, or, for a small size, at
        the next larger or behind all. */
    static ghost predicate FoundAt(pairs: seq<Pair>, top: nat, home: map<int, nat>, key: int, r: nat) {
      && r <= top < |pairs|
      && (key in home ==> r == home[key])
      && (key !in home ==> (forall i :: 1 <= i < r && i < top ==> pairs[i].size < key) && forall i :: r < i < top ==> pairs[i].size > key)
      && (r == top ==> key < SMALLONES && key !in home)
      && (key < SMALLONES ==> r >= 1 && (r < top ==> pairs[r].size >= key))
    }

    static lemma FoundStart(pairs: seq<Pair>, top: nat, home: map<int, nat>, key: int, r: nat)
      requires r <= top < |pairs| && (key in home ==> r == home[key])
      requires key !in home ==> (forall i :: 1 <= i < r && i < top ==> pairs[i].size < key) && forall i :: r < i < top ==> pairs[i].size > key
      requires (r == top ==> key < SMALLONES && key !in home) && (key < SMALLONES ==> r >= 1 && (r < top ==> pairs[r].size >= key))
      ensures FoundAt(pairs, top, home, key, r)
    {
    }

    /** What the pairs say of sizes. */
    static ghost predicate Pairs(pairs: seq<Pair>, top: nat, home: map<int, nat>, counts: map<int, int>) {
      && 1 <= top < |pairs| && pairs[0] == Pair(0, 0)
      && (forall i :: top <= i < |pairs| ==> pairs[i].value == 0 && (pairs[i].size == 0 || pairs[i].size == TERMINATOR))
      && (forall i :: 1 <= i < top ==> && pairs[i].size >= 1 && At(counts, pairs[i].size) == pairs[i].value
                                       && pairs[i].size in home && home[pairs[i].size] == i)
      && (forall k :: At(counts, k) != 0 ==> k in home)
      && (forall k :: k in home ==> 1 <= home[k] < top && pairs[home[k]].size == k)
      && (forall i, j :: 1 <= i < j < top ==> pairs[i].size < pairs[j].size)
    }

    static lemma NotLive(pairs: seq<Pair>, top: nat, home: map<int, nat>, counts: map<int, int>, key: int, r: nat)
      requires Pairs(pairs, top, home, counts) && FoundAt(pairs, top, home, key, r) && key >= 1 && !(pairs[r].size == key && pairs[r].value > 0)
      ensures At(counts, key) <= 0
    {
    }

    /** What is chosen for a size that is not live. */
    static lemma Chosen(pairs: seq<Pair>, top: nat, home: map<int, nat>, counts: map<int, int>, key: int, r0: nat, r1: nat, r2: int)
      requires Pairs(pairs, top, home, counts) && FoundAt(pairs, top, home, key, r0) && 2 <= key < TERMINATOR && At(counts, key) <= 0
      requires var limit := if key > 10 then key / 2 + 2 else key - 2;
               r1 <= r0 && pairs[r1].size <= limit && forall i :: r1 < i <= r0 ==> pairs[i].size > limit
      requires -1 <= r2 <= r1 && (r2 >= 0 ==> pairs[r2].value > 0) && forall i :: r2 < i <= r1 ==> pairs[i].value <= 0
      ensures r2 >= 0 ==> 1 <= r2 < top && pairs[r2].size <= key
      ensures forall s :: At(counts, s) > 0 && s <= (if key > 10 then key / 2 + 2 else key - 2) ==> r2 >= 0 && s <= pairs[r2].size
      ensures r2 >= 0 && !(pairs[top].size == 0 && key < SMALLONES && forall s :: s in home ==> s < key)
              ==> pairs[r2].size <= if key > 10 then key / 2 + 2 else key - 2
      ensures pairs[top].size == 0 && key < SMALLONES && (forall s :: s in home ==> s < key)
              ==> forall s :: At(counts, s) > 0 ==> r2 >= 0 && s <= pairs[r2].size
    {
      assert top < |pairs|;
      hide Pairs, FoundAt;
      ChosenBelow(pairs, top, home, counts, key, r0, r1, r2);
      if pairs[top].size == 0 && key < SMALLONES && forall s :: s in home ==> s < key {
        ChosenLargest(pairs, top, home, counts, key, r0, r1, r2);
      }
    }

    static lemma ChosenBelow(pairs: seq<Pair>, top: nat, home: map<int, nat>, counts: map<int, int>, key: int, r0: nat, r1: nat, r2: int)
      requires Pairs(pairs, top, home, counts) && FoundAt(pairs, top, home, key, r0) && 2 <= key < TERMINATOR
      requires var limit := if key > 10 then key / 2 + 2 else key - 2;
               r1 <= r0 && pairs[r1].size <= limit && forall i :: r1 < i <= r0 ==> pairs[i].size > limit
      requires -1 <= r2 <= r1 && (r2 >= 0 ==> pairs[r2].value > 0) && forall i :: r2 < i <= r1 ==> pairs[i].value <= 0
      ensures r2 >= 0 ==> 1 <= r2 < top && pairs[r2].size <= key
      ensures forall s :: At(counts, s) > 0 && s <= (if key > 10 then key / 2 + 2 else key - 2) ==> r2 >= 0 && s <= pairs[r2].size
      ensures r2 >= 0 && !(pairs[top].size == 0 && key < SMALLONES && forall s :: s in home ==> s < key)
              ==> pairs[r2].size <= if key > 10 then key / 2 + 2 else key - 2
    {
      var limit := if key > 10 then key / 2 + 2 else key - 2;
      assert limit < key;
      forall s | At(counts, s) > 0 && s <= limit
        ensures r2 >= 0 && s <= pairs[r2].size
      {
        var i := home[s];
        assert pairs[i].value > 0;
        assert i <= r0;
        assert i <= r2;
      }
      if r0 == top {
        forall s | s in home
          ensures s < key
        {
          assert pairs[home[s]].size == s;
        }
      }
    }

    static lemma ChosenLargest(pairs: seq<Pair>, top: nat, home: map<int, nat>, counts: map<int, int>, key: int, r0: nat, r1: nat, r2: int)
      requires Pairs(pairs, top, home, counts) && FoundAt(pairs, top, home, key, r0) && 2 <= key < TERMINATOR
      requires pairs[top].size == 0 && key < SMALLONES && forall s :: s in home ==> s < key
      requires var limit := if key > 10 then key / 2 + 2 else key - 2;
               r1 <= r0 && pairs[r1].size <= limit && forall i :: r1 < i <= r0 ==> pairs[i].size > limit
      requires -1 <= r2 <= r1 && (r2 >= 0 ==> pairs[r2].value > 0) && forall i :: r2 < i <= r1 ==> pairs[i].value <= 0
      ensures forall s :: At(counts, s) > 0 ==> r2 >= 0 && s <= pairs[r2].size
    {
      assert r0 == top;
      assert r1 == top;
      forall s | At(counts, s) > 0
        ensures r2 >= 0 && s <= pairs[r2].size
      {
        assert home[s] <= r2;
      }
    }

    /** Down past every pair above the first probe. */
    static method SkipAbove(pairs: array<Pair>, start: nat, firstprobe: int) returns (r: nat)
      requires start < pairs.Length && pairs[0].size <= firstprobe
      ensures r <= start && pairs[r].size <= firstprobe
      ensures forall i :: r < i <= start ==> pairs[i].size > firstprobe
    {
      r := start;
      while pairs[r].size > firstprobe
        invariant 0 <= r <= start
        invariant forall i :: r < i <= start ==> pairs[i].size > firstprobe
        decreases r
      {
        r := r - 1;
      }
    }

    /** Down past every size of which no object is left; -1 if there is none. */
    static method SkipDead(pairs: array<Pair>, start: nat) returns (r: int)
      requires start < pairs.Length
      ensures -1 <= r <= start && (r >= 0 ==> pairs[r].value > 0)
      ensures forall i :: r < i <= start ==> pairs[i].value <= 0
    {
      r := start;
      while r >= 0 && pairs[r].value <= 0
        invariant -1 <= r <= start
        invariant forall i :: r < i <= start ==> pairs[i].value <= 0
      {
        r := r - 1;
      }
    }

    /** Sorts the live sizes into the array of pairs that selection needs. */
    method Compact()
      requires Valid() && !compacted
      requires forall k :: k in counts ==> 1 <= k < TERMINATOR && counts[k] >= 0
      modifies Repr
      ensures Valid() && compacted && counts == old(counts)
      ensures fresh(Repr - old(Repr))
      ensures forall k :: k in home <==> At(counts, k) > 0
      ensures Spare() <==> exists k :: k in counts && k >= SMALLONES && counts[k] == 0
    {
      hide IISc.Valid, Compacted, Passes3;
      ghost var small0, big0 := smallOnes[..], bigOnes.contents;
      LooseZeros(small0, big0, counts);
      ghost var keys, pairs0 := ThreePasses();
      UnusedAfter(small0, smallOnes[..], big0, bigOnes.contents, keys, pairs0, pairs[..], bigstart, count);
      ghost var before := pairs[..];
      pairs[pairs.Length - 1] := Pair(TERMINATOR, 0);
      assert pairs[..] == before[|before| - 1 := Pair(TERMINATOR, 0)];
      compacted := true;
      Repr := Repr + Parts();
      Terminate(small0, smallOnes[..], big0, bigOnes.contents, keys, pairs0, before, bigstart, count);
      home := Assemble(small0, smallOnes[..], big0, bigOnes.contents, keys, pairs0, pairs[..], bigstart, count, counts);
    }

    static lemma UnusedAfter(small: seq<int>, positions: seq<int>, big: map<int, int>, links: map<int, int>,
                             keys: seq<int>, pairs0: seq<Pair>, pairs: seq<Pair>, bigstart: nat, top: nat)
      requires Passes3(small, positions, big, links, keys, pairs0, pairs, bigstart, top)
      ensures top < |pairs| && (pairs[top] == Pair(0, 0) || pairs[top] == Pair(TERMINATOR, 0))
    {
    }

    static lemma LooseZeros(small: seq<int>, big: map<int, int>, counts: map<int, int>)
      requires Loose(small, big, counts) && forall k :: k in counts ==> counts[k] >= 0
      ensures (forall k :: k in big ==> big[k] > 0) <==> !exists k :: k in counts && k >= SMALLONES && counts[k] == 0
    {
    }

    method ThreePasses() returns (ghost keys: seq<int>, ghost pairs0: seq<Pair>)
      requires Apart() && bigOnes.Valid() && Loose(smallOnes[..], bigOnes.contents, counts)
      requires At(counts, 0) == 0
      modifies this, smallOnes, bigOnes.Repr()
      ensures Apart() && bigOnes.Valid() && fresh(Parts() - old(Parts())) && Repr == old(Repr)
      ensures counts == old(counts) && count < pairs.Length && forall i :: count <= i < pairs.Length ==> pairs[i] == Pair(0, 0)
      ensures pairs.Length == count + 1 <==> forall k :: k in old(bigOnes.contents) ==> old(bigOnes.contents)[k] > 0
      ensures Passes3(old(smallOnes[..]), smallOnes[..], old(bigOnes.contents), bigOnes.contents,
                      keys, pairs0, pairs[..], bigstart, count)
    {
      hide IISc.Valid, Compacted, SmallDone, AllPoint, BigDone, Sorted, Linked, Passes3;
      bigOnes.ContentsInSlots();
      keys := bigOnes.keys[..];
      ghost var small0, big0 := smallOnes[..], bigOnes.contents;
      var live := CountNonZero(smallOnes);
      pairs := new Pair[2 + live + bigOnes.count](_ => Pair(0, 0));
      bigstart := PlaceSmall(smallOnes, pairs);
      SmallSorted(pairs[..], small0, bigstart);
      pairs0 := pairs[..];
      count := PlaceBig(bigstart);
      LinkBig();
      PassesAll(small0, smallOnes[..], big0, bigOnes.contents, keys, pairs0, pairs[..], bigstart, count);
    }

    /** The large sizes, inserted in order one hash slot after the other. */
    method PlaceBig(start: nat) returns (index: nat)
      requires bigOnes.Valid() && Apart()
      requires 1 <= start && start + bigOnes.count < pairs.Length && pairs[0] == Pair(0, 0)
      requires Sorted(pairs[..], start)
      requires forall i :: 1 <= i < start ==> pairs[i].size < SMALLONES
      requires forall k :: k in bigOnes.contents ==> k >= SMALLONES
      requires forall i :: start <= i < pairs.Length ==> pairs[i] == Pair(0, 0)
      modifies pairs
      ensures start <= index < pairs.Length
      ensures BigDone(pairs[..], start, index, bigOnes.contents, bigOnes.keys[..])
      ensures forall i :: 0 <= i < start ==> pairs[i] == old(pairs[i])
      ensures forall i :: index <= i < pairs.Length ==> pairs[i] == Pair(0, 0)
      ensures index <= start + bigOnes.count
      ensures index == start + bigOnes.count <==> forall k :: k in bigOnes.contents ==> bigOnes.contents[k] > 0
    {
      hide AllFindable, BigDone, Sorted, Used;
      index := start;
      var u := 0;
      ghost var keys, big := bigOnes.keys[..], bigOnes.contents;
      BigStart(pairs[..], start, big);
      while u < bigOnes.size
        invariant 0 <= u <= bigOnes.size && start <= index <= start + Used(keys[..u], NIL)
        invariant keys == bigOnes.keys[..] && big == bigOnes.contents
        invariant index == start + Used(keys[..u], NIL) <==> AllLive(keys, big, u)
        invariant BigDone(pairs[..], start, index, big, keys[..u])
        invariant forall i :: 0 <= i < start ==> pairs[i] == old(pairs[i])
        invariant forall i :: index <= i < pairs.Length ==> pairs[i] == Pair(0, 0)
      {
        UsedPrefix(keys, u);
        UsedStep(keys, u);
        assert keys[..u + 1] == keys[..u] + [keys[u]];
        var size, value := bigOnes.keys[u], bigOnes.values[u];
        assert size in big <==> size != NIL;
        if size != NIL && value > 0 {
          ghost var before := pairs[..];
          BigSorted(before, start, index, big, keys[..u]);
          ghost var pos := InsertPair(pairs, index, Pair(size, value));
          PutAtAbove(before, pairs[..], index, Pair(size, value), pos, start);
          BigNext(before, pairs[..], start, index, big, keys[..u], size, pos);
          index := index + 1;
        } else {
          BigSkip(pairs[..], start, index, big, keys[..u], size);
        }
        u := u + 1;
      }
      assert keys[..u] == keys;
      AllLiveAll(keys, bigOnes.values[..], big);
    }

    /** Every size in the first `n` hash slots has objects. */
    static ghost predicate AllLive(keys: seq<int>, big: map<int, int>, n: int) {
      forall j :: 0 <= j < n && j < |keys| && keys[j] in big ==> big[keys[j]] > 0
    }

    static lemma AllLiveAll(keys: seq<int>, values: seq<int>, big: map<int, int>)
      requires Agrees(keys, values, big)
      ensures AllLive(keys, big, |keys|) <==> forall k :: k in big ==> big[k] > 0
    {
      forall k | k in big && AllLive(keys, big, |keys|)
        ensures big[k] > 0
      {
        assert k in keys;
      }
    }

    /** The hash table is made to answer the positions of the pairs. */
    method LinkBig()
      requires bigOnes.Valid() && Apart() && 1 <= bigstart <= count < pairs.Length
      requires forall k :: k in bigOnes.contents ==> k >= SMALLONES
      requires BigDone(pairs[..], bigstart, count, bigOnes.contents, bigOnes.keys[..])
      modifies bigOnes.Repr()
      ensures bigOnes.Valid() && Apart() && fresh(bigOnes.Repr() - old(bigOnes.Repr()))
      ensures Linked(pairs[..], bigstart, count, bigOnes.contents)
    {
      hide BigDone, IISc.Shape, AllFindable, Sorted, Linked;
      BigSorted(pairs[..], bigstart, count, bigOnes.contents, bigOnes.keys[..]);
      LinkStart(pairs[..], bigstart, bigOnes.contents);
      var i := bigstart;
      ghost var all := pairs[..];
      while i < count
        invariant bigstart <= i <= count && bigOnes.Valid() && Apart()
        invariant fresh(bigOnes.Repr() - old(bigOnes.Repr()))
        invariant all == pairs[..] && Linked(all, bigstart, i, bigOnes.contents)
      {
        LinkNext(all, bigstart, count, i, bigOnes.contents);
        LinkOne(i);
        i := i + 1;
      }
    }

    method LinkOne(i: nat)
      requires bigOnes.Valid() && Apart() && i < pairs.Length && pairs[i].size >= SMALLONES
      modifies bigOnes.Repr()
      ensures bigOnes.Valid() && Apart() && fresh(bigOnes.Repr() - old(bigOnes.Repr()))
      ensures bigOnes.contents == old(bigOnes.contents)[pairs[i].size := i]
    {
      hide AllFindable;
      var _ := bigOnes.Insert(pairs[i].size, i);
    }

    static method CountNonZero(small: array<int>) returns (c: nat)
      ensures c == NonZero(small[..])
    {
      c := 0;
      var size := 0;
      while size < small.Length
        invariant 0 <= size <= small.Length && c == NonZero(small[..size])
      {
        NonZeroPrefix(small[..], size);
        assert small[..][..size] == small[..size] && small[..][..size + 1] == small[..size + 1];
        if small[size] != 0 {
          c := c + 1;
        }
        size := size + 1;
      }
      assert small[..size] == small[..];
    }

    /** One pair for every live small size; the array entries become positions. */
    static method PlaceSmall(small: array<int>, pairs: array<Pair>) returns (index: nat)
      requires small.Length == SMALLONES && small[0] == 0
      requires 1 + NonZero(small[..]) < pairs.Length && pairs[0] == Pair(0, 0)
      modifies small, pairs
      ensures SmallDone(pairs[..], old(small[..]), SMALLONES, index)
      ensures AllPoint(pairs[..], old(small[..]), small[..], SMALLONES, index)
      ensures index == 1 + NonZero(old(small[..]))
      ensures pairs[index..] == old(pairs[..])[index..]
    {
      hide SmallDone, PointsSoFar, AllPoint, Sorted;
      ghost var small0 := small[..];
      index := 1;
      var size := 0;
      SmallStart(pairs[..], small0);
      while size < SMALLONES
        invariant 0 <= size <= SMALLONES && index == 1 + NonZero(small0[..size]) < pairs.Length
        invariant SmallDone(pairs[..], small0, size, index)
        invariant AllPoint(pairs[..], small0, small[..], size, index)
        invariant small[size..] == small0[size..]
        invariant pairs[index..] == old(pairs[..])[index..]
      {
        NonZeroPrefix(small0, size);
        ghost var before, positions := pairs[..], small[..];
        assert small[size] == small[size..][0] == small0[size];
        SmallNext(before, small0, positions, size, index);
        if small[size] != 0 {
          pairs[index] := Pair(size, small[size]);
          assert pairs[..] == before[index := Pair(size, small0[size])];
          assert pairs[index + 1..] == before[index..][1..];
          small[size] := index;
          index := index + 1;
        } else {
          small[size] := index;
        }
        assert small[..] == positions[size := small[size]];
        assert small[size + 1..] == positions[size..][1..];
        size := size + 1;
      }
      assert small0[..SMALLONES] == small0;
    }

    /** The inner loop of the insertion sort. */
    static method InsertPair(pairs: array<Pair>, index: nat, x: Pair) returns (ghost pos: nat)
      requires 1 <= index < pairs.Length && Sorted(pairs[..], index)
      modifies pairs
      ensures PutAt(old(pairs[..]), pairs[..], index, x, pos)
    {
      hide PutAt, Sorted, Shifted;
      ghost var before := pairs[..];
      var i: int := index - 1;
      ShiftedNone(before, index, x);
      while i > 0 && pairs[i].size > x.size
        invariant 0 <= i < index && Shifted(before, pairs[..], i, index, x)
      {
        ghost var m := pairs[..];
        ShiftedNext(before, m, i, index, x);
        pairs[i + 1] := pairs[i];
        assert pairs[..] == m[i + 1 := m[i]];
        i := i - 1;
      }
      ghost var m := pairs[..];
      ShiftedDone(before, m, i, index, x);
      pairs[i + 1] := x;
      assert pairs[..] == m[i + 1 := x];
      pos := i + 1;
    }

    /** The pairs above `i`, all larger than `x`, have moved up by one. */
    static ghost predicate Shifted(before: seq<Pair>, m: seq<Pair>, i: int, index: int, x: Pair) {
      && |m| == |before| && 0 <= i < index < |m|
      && (forall j :: 0 <= j <= i ==> m[j] == before[j])
      && (forall j :: i + 1 < j <= index ==> m[j] == before[j - 1])
      && (forall j :: index < j < |m| ==> m[j] == before[j])
      && (forall j :: i < j < index ==> before[j].size > x.size)
    }

    static lemma ShiftedNone(before: seq<Pair>, index: int, x: Pair)
      requires 1 <= index < |before|
      ensures Shifted(before, before, index - 1, index, x)
    {
    }

    static lemma ShiftedNext(before: seq<Pair>, m: seq<Pair>, i: int, index: int, x: Pair)
      requires 0 < i && Shifted(before, m, i, index, x) && m[i].size > x.size
      ensures Shifted(before, m[i + 1 := m[i]], i - 1, index, x)
    {
    }

    static lemma ShiftedDone(before: seq<Pair>, m: seq<Pair>, i: int, index: int, x: Pair)
      requires 0 <= i && Shifted(before, m, i, index, x) && Sorted(before, index) && (i == 0 || m[i].size <= x.size)
      ensures PutAt(before, m[i + 1 := x], index, x, i + 1)
    {
    }
  }

  /** One object of six words; a large size has lost its only one before the
      table is compacted.  For seven words the six are chosen, with one left. */
  method OneWordLeft(hash: int -> nat) returns (size: int)
    ensures size == 6
  {
    hide IIXSc.Valid, IIXSc.Spare;
    var t := new IIXSc(hash);
    var _ := t.Bump(6);
    var _ := t.Bump(3000);
    var _ := t.BumpBy(3000, -1);
    t.Compact();
    assert 3000 in t.counts && At(t.counts, 6) == 1;
    size := t.SelectSmaller(7);
  }

  /** Without that size there never was, none is chosen. */
  method NoneChosen(hash: int -> nat) returns (size: int)
    ensures size == 0
  {
    hide IIXSc.Valid, IIXSc.Spare;
    var t := new IIXSc(hash);
    var _ := t.Bump(6);
    t.Compact();
    size := t.SelectSmaller(7);
  }
}
