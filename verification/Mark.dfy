/** Marking the old generation (mark, mark_fields, flushMarkStack in vm/gc.c). */
module Marking {
  import opened Heap
  import opened SizeTable
  import opened CompactionPlan

  /** A heap before an old-generation collection, its mark bits clear: the old
      generation `[lo, hi)` with room up to `limit`, its objects' sizes, the
      words `[ylo, yhi)` of the young generation, and the external roots. */
  datatype World = World(m: seq<Word>, len: map<int, int>, lo: int, hi: int, limit: int,
                         ylo: int, yhi: int, roots: seq<int>)

  ghost predicate InOld(w: World, r: int) {
    w.lo <= r < w.limit
  }

  /** An object with a type; what has none is filler. */
  ghost predicate IsObject(w: World, a: int) {
    a in w.len && 0 <= a < |w.m| && w.m[a].Head? && w.m[a].ct != NIL
  }

  /** If `r` is in the old generation it is an object there. */
  ghost predicate GoodRef(w: World, r: int) {
    InOld(w, r) ==> IsObject(w, r)
  }

  ghost predicate GoodObject(w: World, a: int) {
    && a in w.len
    && (forall k :: a <= k < a + w.len[a] && 0 <= k < |w.m| ==> GoodRef(w, RefOf(w.m[k])))
    && (forall k :: a < k < a + w.len[a] && 0 <= k < |w.m| ==> IsField(w.m[k]))
  }

  ghost predicate WellFormed(w: World) {
    && 1 <= w.lo && w.hi <= w.limit <= w.ylo <= w.yhi <= |w.m|
    && Parsed(w.m, w.len, w.lo, w.hi)
    && (forall a :: a in w.len ==> !w.m[a].mark)
    && (forall a :: IsObject(w, a) ==> GoodObject(w, a))
    && (forall k :: w.ylo <= k < w.yhi ==> GoodRef(w, RefOf(w.m[k])))
    && (forall i :: 0 <= i < |w.roots| ==> GoodRef(w, w.roots[i]))
  }

  /** `x` contains what the roots refer to: the external roots, every word of
      the young generation, and the types of all old objects, dead or alive. */
  ghost predicate HasRoots(w: World, x: set<int>) {
    && (forall k :: w.ylo <= k < w.yhi && 0 <= k < |w.m| && InOld(w, RefOf(w.m[k])) ==> RefOf(w.m[k]) in x)
    && (forall i :: 0 <= i < |w.roots| && InOld(w, w.roots[i]) ==> w.roots[i] in x)
    && (forall a :: a in w.len && 0 <= a < |w.m| && InOld(w, RefOf(w.m[a])) ==> RefOf(w.m[a]) in x)
  }

  /** `x` contains what the first `n` words of the object at `a` refer to. */
  ghost predicate HasFields(w: World, x: set<int>, a: int, n: int) {
    forall k :: a <= k < a + n && 0 <= k < |w.m| && InOld(w, RefOf(w.m[k])) ==> RefOf(w.m[k]) in x
  }

  /** Closed under references, and containing what the roots refer to. */
  ghost predicate Closed(w: World, x: set<int>) {
    HasRoots(w, x) && forall a :: a in x && a in w.len ==> HasFields(w, x, a, w.len[a])
  }

  /** Reachable from the roots: in every closed set. */
  ghost predicate Reachable(w: World, a: int) {
    forall x: set<int> :: Closed(w, x) ==> a in x
  }

  /** Everything in `x` is reachable. */
  ghost predicate AllReachable(w: World, x: set<int>) {
    forall y: set<int> :: Closed(w, y) ==> x <= y
  }

  /** Word by word: every old address that a root is, or a young word or an old
      object's flags word names, is in `x`, and every one that a word of an object
      in `x` names. */
  lemma ClosedMeans(w: World, x: set<int>)
    requires WellFormed(w)
    ensures Closed(w, x) <==>
      && (forall i :: 0 <= i < |w.roots| && w.lo <= w.roots[i] < w.limit ==> w.roots[i] in x)
      && (forall k :: w.ylo <= k < w.yhi && w.m[k].Ref? && w.lo <= w.m[k].target < w.limit ==> w.m[k].target in x)
      && (forall k :: w.ylo <= k < w.yhi && w.m[k].Head? && w.lo <= w.m[k].ct < w.limit ==> w.m[k].ct in x)
      && (forall a :: a in w.len && w.lo <= w.m[a].ct < w.limit ==> w.m[a].ct in x)
      && (forall a, k :: a in x && a in w.len && a <= k < a + w.len[a] && w.m[k].Ref? && w.lo <= w.m[k].target < w.limit ==> w.m[k].target in x)
      && (forall a, k :: a in x && a in w.len && a <= k < a + w.len[a] && w.m[k].Head? && w.lo <= w.m[k].ct < w.limit ==> w.m[k].ct in x)
  {
  }

  lemma ReachableIn(w: World, a: int, x: set<int>)
    requires Reachable(w, a) && Closed(w, x)
    ensures a in x
  {
  }

  /** What is reachable is the least closed set. */
  lemma LeastClosed(w: World, live: set<int>)
    requires forall a :: a in live <==> Reachable(w, a)
    ensures Closed(w, live) && forall x: set<int> :: Closed(w, x) ==> live <= x
  {
    forall x: set<int> | Closed(w, x)
      ensures live <= x
    {
      forall a | a in live
        ensures a in x
      {
        ReachableIn(w, a, x);
      }
    }
    forall r
      ensures Forced(w, live, r) ==> r in live
    {
      assert Forced(w, live, r) ==> Reachable(w, r);
    }
    forall a, k | a in live && a in w.len && a <= k < a + w.len[a] && 0 <= k < |w.m| && InOld(w, RefOf(w.m[k]))
      ensures RefOf(w.m[k]) in live
    {
      FieldForced(w, live, a, k);
    }
    forall k | w.ylo <= k < w.yhi && 0 <= k < |w.m| && InOld(w, RefOf(w.m[k]))
      ensures RefOf(w.m[k]) in live
    {
      YoungForced(w, live, k);
    }
    forall i | 0 <= i < |w.roots| && InOld(w, w.roots[i])
      ensures w.roots[i] in live
    {
      RootForced(w, live, i);
    }
    forall a | a in w.len && 0 <= a < |w.m| && InOld(w, RefOf(w.m[a]))
      ensures RefOf(w.m[a]) in live
    {
      TypeForced(w, live, a);
    }
  }

  /** The heap with the objects in `live` marked. */
  ghost predicate OnlyMarks(w: World, m: seq<Word>, live: set<int>) {
    && |m| == |w.m|
    && (forall k :: 0 <= k < |m| && k !in w.len ==> m[k] == w.m[k])
    && (forall a :: a in w.len && 0 <= a < |m| ==> m[a] == Head(w.len[a], a in live, RefOf(w.m[a])))
  }

  /** The plan of the compaction before any space has been swept. */
  function Unswept(w: World, live: set<int>): Plan {
    Plan(live, w.len, map[], map[])
  }

  /** What marking keeps true: the objects waiting on the stack and those in
      `open` may still refer to unmarked ones, no others do. */
  ghost predicate MarkingState(w: World, m: seq<Word>, live: set<int>, stack: seq<int>, open: set<int>,
                               hist: multiset<int>, words: int)
  {
    && WellFormed(w) && OnlyMarks(w, m, live)
    && (forall a :: a in live ==> IsObject(w, a))
    && (forall i :: 0 <= i < |stack| ==> stack[i] in live)
    && (forall a :: a in live && a !in stack && a !in open ==> a in w.len && HasFields(w, live, a, w.len[a]))
    && AllReachable(w, live)
    && Owed(Unswept(w, live), hist, 0, w.lo, w.hi, |m|)
    && words == LiveWords(live, w.len, w.lo, w.hi)
  }

  /** Anything that contains the marked objects and is closed contains `r`. */
  ghost predicate Forced(w: World, live: set<int>, r: int) {
    forall x: set<int> :: Closed(w, x) && live <= x ==> r in x
  }

  lemma MarkStart(w: World)
    requires WellFormed(w)
    ensures MarkingState(w, w.m, {}, [], {}, multiset{}, 0)
  {
    forall a | a in w.len && 0 <= a < |w.m|
      ensures w.m[a] == Head(w.len[a], false, RefOf(w.m[a]))
    {
    }
    forall s
      ensures LiveCount({}, w.len, w.lo, w.hi, s) == 0
    {
      LiveNone(w.len, w.lo, w.hi, s);
    }
    LiveNone(w.len, w.lo, w.hi, 0);
    WeightEmpty(|w.m|);
  }

  /** One more object is marked and counted. */
  lemma MarkAccounts(w: World, live: set<int>, hist: multiset<int>, words: int, n: nat, r: int)
    requires Tiling(w.len, w.lo, w.hi) && w.hi - w.lo <= n && r in w.len && r !in live
    requires Owed(Unswept(w, live), hist, 0, w.lo, w.hi, n) && words == LiveWords(live, w.len, w.lo, w.hi)
    ensures Owed(Unswept(w, live + {r}), hist + multiset{w.len[r]}, 0, w.lo, w.hi, n)
    ensures words + w.len[r] == LiveWords(live + {r}, w.len, w.lo, w.hi)
  {
    var p, p', hist' := Unswept(w, live), Unswept(w, live + {r}), hist + multiset{w.len[r]};
    forall s
      ensures hist'[s] + |Chunks(p'.lists, s)| == LiveCount(p'.live, p'.len, w.lo, w.hi, s)
    {
      LiveAdd(live, w.len, w.lo, w.hi, w.lo, r, s);
      assert hist[s] + |Chunks(p.lists, s)| == LiveCount(p.live, p.len, w.lo, w.hi, s);
    }
    LiveAdd(live, w.len, w.lo, w.hi, w.lo, r, 0);
    WeightAdd(hist, w.len[r], n);
  }

  lemma MarkOne(w: World, m: seq<Word>, live: set<int>, stack: seq<int>, open: set<int>,
                hist: multiset<int>, words: int, r: int)
    requires MarkingState(w, m, live, stack, open, hist, words)
    requires IsObject(w, r) && r !in live && Forced(w, live, r)
    ensures m[r].Head?
    ensures MarkingState(w, m[r := m[r].(mark := true)], live + {r}, stack + [r], open,
                         hist + multiset{w.len[r]}, words + w.len[r])
  {
    hide Owed, Forced, HasFields;
    MarkAccounts(w, live, hist, words, |m|, r);
    MarkReach(w, live, r);
    var m', live', stack' := m[r := m[r].(mark := true)], live + {r}, stack + [r];
    forall a | a in live' && a !in stack' && a !in open
      ensures a in w.len && HasFields(w, live', a, w.len[a])
    {
      assert r in stack';
      assert forall b :: b in stack ==> b in stack';
      FieldsGrow(w, live, live', a, w.len[a]);
    }
  }

  lemma FieldsGrow(w: World, x: set<int>, y: set<int>, a: int, n: int)
    requires HasFields(w, x, a, n) && x <= y
    ensures HasFields(w, y, a, n)
  {
  }

  lemma FieldsNone(w: World, x: set<int>, a: int)
    ensures HasFields(w, x, a, 0)
  {
  }

  lemma FieldsNext(w: World, x: set<int>, y: set<int>, a: int, n: int)
    requires HasFields(w, x, a, n) && x <= y && n >= 0
    requires 0 <= a + n < |w.m| && InOld(w, RefOf(w.m[a + n])) ==> RefOf(w.m[a + n]) in y
    ensures HasFields(w, y, a, n + 1)
  {
  }

  lemma MarkReach(w: World, live: set<int>, r: int)
    requires AllReachable(w, live) && Forced(w, live, r)
    ensures AllReachable(w, live + {r})
  {
    forall y: set<int> | Closed(w, y)
      ensures live + {r} <= y
    {
      assert live <= y;
    }
  }

  /** What a marked object or a root refers to is forced. */
  lemma FieldForced(w: World, live: set<int>, a: int, k: int)
    requires a in live && a in w.len && a <= k < a + w.len[a] && 0 <= k < |w.m| && InOld(w, RefOf(w.m[k]))
    ensures Forced(w, live, RefOf(w.m[k]))
  {
    forall x: set<int> | Closed(w, x) && live <= x
      ensures RefOf(w.m[k]) in x
    {
      assert HasFields(w, x, a, w.len[a]);
    }
  }

  lemma YoungForced(w: World, live: set<int>, k: int)
    requires w.ylo <= k < w.yhi && 0 <= k < |w.m| && InOld(w, RefOf(w.m[k]))
    ensures Forced(w, live, RefOf(w.m[k]))
  {
  }

  lemma RootForced(w: World, live: set<int>, i: int)
    requires 0 <= i < |w.roots| && InOld(w, w.roots[i])
    ensures Forced(w, live, w.roots[i])
  {
  }

  lemma TypeForced(w: World, live: set<int>, a: int)
    requires a in w.len && 0 <= a < |w.m| && InOld(w, RefOf(w.m[a]))
    ensures Forced(w, live, RefOf(w.m[a]))
  {
  }

  /** When all roots have been marked and the stack is empty, the marked objects
      are exactly the reachable ones. */
  lemma MarkExact(w: World, m: seq<Word>, live: set<int>, hist: multiset<int>, words: int)
    requires MarkingState(w, m, live, [], {}, hist, words) && HasRoots(w, live)
    ensures Closed(w, live)
    ensures forall a :: a in live <==> Reachable(w, a)
  {
    assert Closed(w, live);
    forall a
      ensures a in live <==> Reachable(w, a)
    {
    }
  }

  lemma MarkPop(w: World, m: seq<Word>, live: set<int>, stack: seq<int>, hist: multiset<int>, words: int)
    requires MarkingState(w, m, live, stack, {}, hist, words) && stack != []
    ensures var p := stack[|stack| - 1];
            && p in live && IsObject(w, p)
            && MarkingState(w, m, live, stack[..|stack| - 1], {p}, hist, words)
  {
    var p, rest := stack[|stack| - 1], stack[..|stack| - 1];
    assert stack == rest + [p];
  }

  lemma MarkClose(w: World, m: seq<Word>, live: set<int>, stack: seq<int>, p: int, hist: multiset<int>, words: int)
    requires MarkingState(w, m, live, stack, {p}, hist, words) && p in w.len && HasFields(w, live, p, w.len[p])
    ensures MarkingState(w, m, live, stack, {}, hist, words)
  {
  }

  /** `x` contains the types of the old objects below `o`, and so on. */
  ghost predicate HasTypes(w: World, x: set<int>, o: int) {
    forall a :: a in w.len && a < o && 0 <= a < |w.m| && InOld(w, RefOf(w.m[a])) ==> RefOf(w.m[a]) in x
  }

  ghost predicate HasYoung(w: World, x: set<int>, k: int) {
    forall j :: w.ylo <= j < k && 0 <= j < |w.m| && InOld(w, RefOf(w.m[j])) ==> RefOf(w.m[j]) in x
  }

  ghost predicate HasExternal(w: World, x: set<int>, i: int) {
    forall j :: 0 <= j < i && j < |w.roots| && InOld(w, w.roots[j]) ==> w.roots[j] in x
  }

  lemma TypesNone(w: World, m: seq<Word>, live: set<int>, hist: multiset<int>, words: int)
    requires MarkingState(w, m, live, [], {}, hist, words)
    ensures HasTypes(w, live, w.lo) && w.lo <= w.hi <= |m| && (w.lo == w.hi || w.lo in w.len)
  {
  }

  lemma TypesNext(w: World, m: seq<Word>, live: set<int>, live': set<int>, hist: multiset<int>, words: int, o: int)
    requires MarkingState(w, m, live', [], {}, hist, words) && HasTypes(w, live, o) && live <= live'
    requires o in w.len && 0 <= o < |w.m| && (InOld(w, RefOf(w.m[o])) ==> RefOf(w.m[o]) in live')
    ensures HasTypes(w, live', o + w.len[o])
  {
  }

  lemma TypesGrow(w: World, x: set<int>, y: set<int>, o: int)
    requires HasTypes(w, x, o) && x <= y
    ensures HasTypes(w, y, o)
  {
  }

  lemma TypeForcedAt(w: World, live: set<int>, o: int)
    requires o in w.len && 0 <= o < |w.m|
    ensures InOld(w, RefOf(w.m[o])) ==> Forced(w, live, RefOf(w.m[o]))
  {
    if InOld(w, RefOf(w.m[o])) {
      TypeForced(w, live, o);
    }
  }

  lemma YoungNone(w: World, m: seq<Word>, live: set<int>, hist: multiset<int>, words: int)
    requires MarkingState(w, m, live, [], {}, hist, words)
    ensures HasYoung(w, live, w.ylo) && w.ylo <= w.yhi
  {
  }

  lemma YoungAt(w: World, m: seq<Word>, live: set<int>, hist: multiset<int>, words: int, k: int)
    requires MarkingState(w, m, live, [], {}, hist, words) && w.ylo <= k < w.yhi
    ensures 0 <= k < |m| == |w.m| && m[k] == w.m[k] && GoodRef(w, RefOf(m[k]))
    ensures InOld(w, RefOf(m[k])) ==> Forced(w, live, RefOf(m[k]))
  {
    if InOld(w, RefOf(w.m[k])) {
      YoungForced(w, live, k);
    }
  }

  lemma YoungNext(w: World, live: set<int>, live': set<int>, k: int)
    requires HasYoung(w, live, k) && live <= live'
    requires 0 <= k < |w.m| && (InOld(w, RefOf(w.m[k])) ==> RefOf(w.m[k]) in live')
    ensures HasYoung(w, live', k + 1)
  {
  }

  lemma YoungGrow(w: World, x: set<int>, y: set<int>, k: int)
    requires HasYoung(w, x, k) && x <= y
    ensures HasYoung(w, y, k)
  {
  }

  lemma ExternalNone(w: World, live: set<int>)
    ensures HasExternal(w, live, 0)
  {
  }

  lemma ExternalAt(w: World, m: seq<Word>, live: set<int>, hist: multiset<int>, words: int, i: int)
    requires MarkingState(w, m, live, [], {}, hist, words) && 0 <= i < |w.roots|
    ensures GoodRef(w, w.roots[i]) && (InOld(w, w.roots[i]) ==> Forced(w, live, w.roots[i]))
  {
    if InOld(w, w.roots[i]) {
      RootForced(w, live, i);
    }
  }

  lemma ExternalNext(w: World, live: set<int>, live': set<int>, i: int)
    requires HasExternal(w, live, i) && live <= live' && 0 <= i < |w.roots|
    requires InOld(w, w.roots[i]) ==> w.roots[i] in live'
    ensures HasExternal(w, live', i + 1)
  {
  }

  lemma AllRoots(w: World, m: seq<Word>, live: set<int>, hist: multiset<int>, words: int)
    requires MarkingState(w, m, live, [], {}, hist, words)
    requires HasTypes(w, live, w.hi) && HasYoung(w, live, w.yhi) && HasExternal(w, live, |w.roots|)
    ensures HasRoots(w, live)
  {
  }

  /** What marking sees of an object. */
  lemma MarkSees(w: World, m: seq<Word>, live: set<int>, stack: seq<int>, open: set<int>, hist: multiset<int>, words: int, a: int)
    requires MarkingState(w, m, live, stack, open, hist, words) && a in w.len
    ensures w.lo <= a < a + w.len[a] <= w.hi <= |m| == |w.m| && w.lo >= 1
    ensures m[a] == Head(w.len[a], a in live, RefOf(w.m[a])) && w.len[a] >= 1
    ensures a + w.len[a] == w.hi || a + w.len[a] in w.len
    ensures forall k :: a < k < a + w.len[a] ==> m[k] == w.m[k]
    ensures IsObject(w, a) ==> forall k :: a <= k < a + w.len[a] ==> GoodRef(w, RefOf(w.m[k]))
    ensures GoodRef(w, RefOf(w.m[a]))
  {
    assert Followed(w.len, a, w.hi);
    if IsObject(w, a) {
      assert GoodObject(w, a);
    } else {
      assert RefOf(w.m[a]) == NIL;
    }
  }
}
