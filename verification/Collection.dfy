/** What a whole collection of the old generation keeps (vm/gc.c,
    gcollect_old): the reachable graph, up to a one-to-one renaming, and a heap
    that can be collected again. */
module OldCollection {
  import opened Heap
  import opened SizeTable
  import opened CompactionPlan
  import opened CompactionMove
  import opened CompactionEnd
  import opened Marking

  // ----- the remembered set and its bits -----

  function Flag(w: Word, on: bool): Word {
    if w.Head? then w.(mark := on) else w
  }

  /** The heap with the remembered bits of the old generation clear. */
  ghost function Unflagged(w: World): World {
    w.(m := seq(|w.m|, k requires 0 <= k < |w.m| => if k in w.len then Flag(w.m[k], false) else w.m[k]))
  }

  /** A heap between collections: well-formed, and in the old generation just
      the objects of the remembered set have their bit set. */
  ghost predicate Sound(w: World, rem: seq<int>) {
    && WellFormed(Unflagged(w))
    && (forall a :: a in w.len && 0 <= a < |w.m| && w.m[a].Head? ==> (w.m[a].mark <==> a in rem))
    && (forall a :: a in rem ==> IsObject(w, a)) && NoDup(rem)
  }

  /** `m'` is `m` with the bits of the first `n` objects of a list set or cleared. */
  ghost predicate FlaggedUpTo(m: seq<Word>, m': seq<Word>, rem: seq<int>, n: int, on: bool) {
    && |m'| == |m| && 0 <= n <= |rem|
    && forall k :: 0 <= k < |m| ==> m'[k] == if k in rem[..n] then Flag(m[k], on) else m[k]
  }

  lemma FlaggedNone(m: seq<Word>, rem: seq<int>, on: bool)
    ensures FlaggedUpTo(m, m, rem, 0, on)
  {
  }

  lemma FlaggedNext(m: seq<Word>, m': seq<Word>, rem: seq<int>, n: int, on: bool)
    requires FlaggedUpTo(m, m', rem, n, on) && n < |rem| && 0 <= rem[n] < |m|
    requires m'[rem[n]].Head?
    ensures FlaggedUpTo(m, m'[rem[n] := m'[rem[n]].(mark := on)], rem, n + 1, on)
  {
    assert rem[..n + 1] == rem[..n] + [rem[n]];
  }

  /** With its remembered bits cleared the heap is ready for marking. */
  lemma FlagsClear(w: World, rem: seq<int>, m': seq<Word>)
    requires Sound(w, rem) && FlaggedUpTo(w.m, m', rem, |rem|, false)
    ensures m' == Unflagged(w).m
  {
    assert rem[..|rem|] == rem;
    forall k | 0 <= k < |m'|
      ensures m'[k] == Unflagged(w).m[k]
    {
      if k in w.len {
        assert Unflagged(w).m[k].Head?;
      } else {
        assert !IsObject(w, k);
      }
    }
  }

  /** The members of a list that are in a set, in order. */
  function Only(rem: seq<int>, live: set<int>): seq<int> {
    if rem == [] then [] else
      var most := Only(rem[..|rem| - 1], live);
      if rem[|rem| - 1] in live then most + [rem[|rem| - 1]] else most
  }

  lemma OnlyNext(rem: seq<int>, live: set<int>, n: int)
    requires 0 <= n < |rem|
    ensures Only(rem[..n + 1], live) == Only(rem[..n], live) + (if rem[n] in live then [rem[n]] else [])
  {
    assert rem[..n + 1][..n] == rem[..n];
  }

  lemma {:induction false} OnlyHas(rem: seq<int>, live: set<int>)
    ensures forall a :: a in Only(rem, live) <==> a in rem && a in live
    ensures NoDup(rem) ==> NoDup(Only(rem, live))
    ensures |Only(rem, live)| <= |rem|
  {
    if rem != [] {
      var n := |rem| - 1;
      OnlyHas(rem[..n], live);
      assert rem == rem[..n] + [rem[n]];
    }
  }

  function Renaming(rem: seq<int>, to: map<int, int>): (r: seq<int>)
    ensures |r| == |rem| && forall i :: 0 <= i < |rem| ==> r[i] == Renamed(to, rem[i])
  {
    seq(|rem|, i requires 0 <= i < |rem| => Renamed(to, rem[i]))
  }

  /** The entries of the object table but those of dead old objects. */
  function Purged(table: map<int, int>, lo: int, limit: int, live: set<int>): map<int, int> {
    map a | a in table && (lo <= table[a] < limit ==> table[a] in live) :: table[a]
  }

  // ----- from the marking to the plan -----

  /** The heap as the marking leaves it is what the compaction starts from. */
  lemma MarkedReady(w: World, m: seq<Word>, live: set<int>, hist: multiset<int>, words: int)
    requires MarkingState(w, m, live, [], {}, hist, words)
    ensures MarkedHeap(m, live, w.len, w.lo, w.hi) && w.lo <= w.hi && (w.lo == w.hi || w.lo in w.len)
    ensures SweptAt(m, m, Unswept(w, live), map[], w.lo, w.lo, {})
    ensures Owed(Unswept(w, live), hist, 0, w.lo, w.hi, |m|)
    ensures words == LiveWords(live, w.len, w.lo, w.hi)
  {
    var p := Unswept(w, live);
    forall a | a in live
      ensures a in w.len
    {
      assert IsObject(w, a);
    }
    forall s
      ensures Chained(m, ListHead(map[], s), Chunks(p.lists, s), Absent(s)) && ListTiled(p.tile, p.live, s, Chunks(p.lists, s))
    {
    }
  }

  /** The marked objects refer to marked objects. */
  lemma MarkedClosed(w: World, m: seq<Word>, live: set<int>, hist: multiset<int>, words: int, p: Plan, b: int, end: int)
    requires MarkingState(w, m, live, [], {}, hist, words) && Closed(w, live)
    requires p.live == live && p.len == w.len && (end == w.hi || end in w.len)
    requires forall a :: a in live ==> a < b || a >= end
    ensures Reachables(m, p, w.lo, b, end, w.hi, w.limit)
  {
    MarkedReady(w, m, live, hist, words);
    forall a, k | a in p.live && a in p.len && a <= k < a + p.len[a] && 0 <= k < |m|
      ensures a < k ==> IsField(m[k])
      ensures w.lo <= RefOf(m[k]) < w.limit ==> RefOf(m[k]) in p.live
    {
      assert IsObject(w, a) && GoodObject(w, a) && HasFields(w, live, a, w.len[a]);
      MarkSees(w, m, live, [], {}, hist, words, a);
      assert RefOf(m[k]) == RefOf(w.m[k]);
      assert k == a || k !in w.len;
    }
  }

  // ----- what is preserved -----

  /** Object `a` of `w` is at its new place in `v`: same size and data, its bit
      set if it is remembered, and its type and references renamed. */
  ghost predicate Carried(w: World, v: World, to: map<int, int>, rem: seq<int>, a: int) {
    var t := Renamed(to, a);
    && a in w.len && t in v.len && v.len[t] == w.len[a] >= 1
    && 0 <= a && a + w.len[a] <= |w.m| && 0 <= t && t + w.len[a] <= |v.m|
    && v.m[t] == Head(w.len[a], t in rem, Renamed(to, RefOf(w.m[a])))
    && (forall k :: t < k < t + w.len[a] ==> v.m[k] == MapWord(to, w.m[k - t + a]))
  }

  ghost predicate OneToOne(to: map<int, int>, live: set<int>) {
    forall a, b :: a in live && b in live && a != b ==> Renamed(to, a) != Renamed(to, b)
  }

  ghost predicate IsImage(to: map<int, int>, live: set<int>, t: int) {
    exists a :: a in live && Renamed(to, a) == t
  }

  /** `v` is `w` with the objects in `live` carried to new places one-to-one,
      every reference from the young generation and the roots renamed, and
      nothing else in the old generation than fillers. */
  ghost predicate Preserved(w: World, v: World, live: set<int>, to: map<int, int>, rem: seq<int>) {
    && v.lo == w.lo && v.limit == w.limit && v.ylo == w.ylo && v.yhi == w.yhi && |v.m| == |w.m|
    && v.hi <= w.hi && Tiling(v.len, v.lo, v.hi)
    && OneToOne(to, live) && (forall a :: a in to ==> a in live)
    && (forall a {:trigger Carried(w, v, to, rem, a)} :: a in live ==> Carried(w, v, to, rem, a))
    && (forall t :: t in v.len && !IsImage(to, live, t) ==> IsFiller(v.m, t, v.len[t]))
    && (forall k :: w.ylo <= k < w.yhi && 0 <= k < |w.m| ==> v.m[k] == MapWord(to, w.m[k]))
    && v.roots == Renaming(w.roots, to)
  }

  /** Word by word: at its one new place an object has its size, its type and
      fields name the new places of what they named, and its data are the same. */
  lemma CarriedMeans(w: World, v: World, live: set<int>, to: map<int, int>, rem: seq<int>, a: int, t: int)
    requires Preserved(w, v, live, to, rem) && a in live && t == if a in to then to[a] else a
    ensures a in w.len && t in v.len && v.len[t] == w.len[a] >= 1 && 0 <= a && a + w.len[a] <= |w.m| && 0 <= t && t + v.len[t] <= |v.m|
    ensures v.m[t].Head? && v.m[t].size == w.len[a] && (v.m[t].mark <==> t in rem)
    ensures w.m[a].Head? ==> v.m[t].ct == if w.m[a].ct in to then to[w.m[a].ct] else w.m[a].ct
    ensures forall k :: a < k < a + w.len[a] && w.m[k].Ref? ==> v.m[k - a + t] == Ref(if w.m[k].target in to then to[w.m[k].target] else w.m[k].target)
    ensures forall k :: a < k < a + w.len[a] && w.m[k].Data? ==> v.m[k - a + t] == w.m[k]
    ensures forall b :: b in live && b != a ==> t != if b in to then to[b] else b
  {
    hide OneToOne;
    assert Carried(w, v, to, rem, a);
    BodyMeans(w.m, v.m, to, a, t, w.len[a]);
    PlaceOwn(to, live, a);
  }

  lemma PlaceOwn(to: map<int, int>, live: set<int>, a: int)
    requires OneToOne(to, live) && a in live
    ensures forall b :: b in live && b != a ==> (if a in to then to[a] else a) != if b in to then to[b] else b
  {
    forall b | b in live && b != a
      ensures (if a in to then to[a] else a) != if b in to then to[b] else b
    {
      assert Renamed(to, a) != Renamed(to, b);
    }
  }

  /** Young words and roots name the new places of what they named, and what is
      neither live nor young is filler. */
  lemma PreservedMeans(w: World, v: World, live: set<int>, to: map<int, int>, rem: seq<int>)
    requires Preserved(w, v, live, to, rem) && 0 <= w.ylo && w.yhi <= |w.m|
    ensures |v.m| == |w.m| && |v.roots| == |w.roots|
    ensures forall k :: w.ylo <= k < w.yhi && w.m[k].Ref? ==> v.m[k] == Ref(if w.m[k].target in to then to[w.m[k].target] else w.m[k].target)
    ensures forall k :: w.ylo <= k < w.yhi && w.m[k].Data? ==> v.m[k] == w.m[k]
    ensures forall k :: w.ylo <= k < w.yhi && w.m[k].Head? ==> v.m[k] == w.m[k].(ct := if w.m[k].ct in to then to[w.m[k].ct] else w.m[k].ct)
    ensures forall i :: 0 <= i < |w.roots| ==> v.roots[i] == if w.roots[i] in to then to[w.roots[i]] else w.roots[i]
    ensures forall t :: t in v.len && (forall a :: a in live ==> t != if a in to then to[a] else a)
                        ==> 0 <= t < |v.m| && v.m[t] == Head(v.len[t], false, -1)
  {
    forall t | t in v.len && (forall a :: a in live ==> t != if a in to then to[a] else a)
      ensures 0 <= t < |v.m| && v.m[t] == Head(v.len[t], false, -1)
    {
      assert forall a :: a in live ==> Renamed(to, a) != t;
      assert !IsImage(to, live, t);
    }
  }

  /** A reference to a carried object is good again. */
  lemma ImageGood(w: World, v: World, live: set<int>, to: map<int, int>, rem: seq<int>, r: int)
    requires Preserved(w, v, live, to, rem) && WellFormed(w) && w.lo >= 1
    requires forall a :: a in live ==> IsObject(w, a)
    requires InOld(w, r) ==> r in live
    ensures GoodRef(Unflagged(v), Renamed(to, r))
    ensures r in live ==> IsObject(v, Renamed(to, r)) && Renamed(to, r) >= 1
  {
    if r in live {
      assert Carried(w, v, to, rem, r);
      var ct := RefOf(w.m[r]);
      if ct in to {
        assert ct in live && Carried(w, v, to, rem, ct);
      }
    } else {
      assert r !in to;
    }
  }

  lemma ImageRefs(to: map<int, int>, w: Word)
    requires NIL !in to
    ensures RefOf(MapWord(to, w)) == Renamed(to, RefOf(w))
  {
  }

  /** The words of a carried object. */
  lemma CarriedWord(w: World, v: World, live: set<int>, to: map<int, int>, rem: seq<int>, a: int, k: int)
    requires Preserved(w, v, live, to, rem) && WellFormed(w) && Closed(w, live) && a in live
    requires forall x :: x in live ==> IsObject(w, x)
    requires Renamed(to, a) <= k < Renamed(to, a) + w.len[a]
    ensures 0 <= k < |v.m| && GoodRef(Unflagged(v), RefOf(v.m[k])) && (k > Renamed(to, a) ==> IsField(v.m[k]))
  {
    hide Preserved, WellFormed, Closed, GoodObject, GoodRef, IsField;
    var j := k - Renamed(to, a) + a;
    LiveWord(w, live, a, j);
    LivePlace(w, v, live, to, rem, a, k);
    ImageGood(w, v, live, to, rem, RefOf(w.m[j]));
  }

  lemma LiveWord(w: World, live: set<int>, a: int, j: int)
    requires WellFormed(w) && Closed(w, live) && a in live && IsObject(w, a) && a <= j < a + w.len[a]
    ensures 0 <= j < |w.m| && w.lo >= 1 && (InOld(w, RefOf(w.m[j])) ==> RefOf(w.m[j]) in live)
    ensures j > a ==> IsField(w.m[j])
  {
    assert HasFields(w, live, a, w.len[a]) && GoodObject(w, a);
  }

  lemma LivePlace(w: World, v: World, live: set<int>, to: map<int, int>, rem: seq<int>, a: int, k: int)
    requires Preserved(w, v, live, to, rem) && WellFormed(w) && a in live
    requires forall x :: x in live ==> IsObject(w, x)
    requires Renamed(to, a) <= k < Renamed(to, a) + w.len[a]
    ensures var j := k - Renamed(to, a) + a;
            && 0 <= k < |v.m| && 0 <= j < |w.m| && RefOf(v.m[k]) == Renamed(to, RefOf(w.m[j]))
            && (k > Renamed(to, a) && IsField(w.m[j]) ==> IsField(v.m[k]))
  {
    hide WellFormed;
    assert Carried(w, v, to, rem, a);
    assert !IsObject(w, NIL);
    ImageRefs(to, w.m[k - Renamed(to, a) + a]);
  }

  lemma NewParsed(w: World, v: World, live: set<int>, to: map<int, int>, rem: seq<int>)
    requires Preserved(w, v, live, to, rem) && WellFormed(w)
    requires forall t :: t in rem ==> IsImage(to, live, t)
    ensures forall t :: t in v.len ==> 0 <= t < |v.m| && v.m[t].Head? && v.m[t].size == v.len[t] && (v.m[t].mark <==> t in rem)
    ensures forall t :: IsObject(v, t) ==> IsImage(to, live, t)
  {
    forall t | t in v.len
      ensures 0 <= t < |v.m| && v.m[t].Head? && v.m[t].size == v.len[t] && (v.m[t].mark <==> t in rem)
      ensures v.m[t].ct != NIL ==> IsImage(to, live, t)
    {
      if IsImage(to, live, t) {
        var a :| a in live && Renamed(to, a) == t;
        assert Carried(w, v, to, rem, a);
      } else {
        assert IsFiller(v.m, t, v.len[t]);
      }
    }
  }

  lemma UnflaggedSame(v: World)
    ensures |Unflagged(v).m| == |v.m|
    ensures forall k :: 0 <= k < |v.m| ==> RefOf(Unflagged(v).m[k]) == RefOf(v.m[k])
    ensures forall k :: 0 <= k < |v.m| ==> (IsField(Unflagged(v).m[k]) <==> IsField(v.m[k]))
    ensures forall a :: IsObject(Unflagged(v), a) <==> IsObject(v, a)
  {
  }

  lemma NewObjects(w: World, v: World, live: set<int>, to: map<int, int>, rem: seq<int>, t: int)
    requires Preserved(w, v, live, to, rem) && WellFormed(w) && Closed(w, live)
    requires forall x :: x in live ==> IsObject(w, x)
    requires t in v.len && IsImage(to, live, t)
    ensures GoodObject(Unflagged(v), t)
  {
    var u := Unflagged(v);
    UnflaggedSame(v);
    var a :| a in live && Renamed(to, a) == t;
    assert Carried(w, v, to, rem, a);
    forall k | t <= k < t + u.len[t] && 0 <= k < |u.m|
      ensures GoodRef(u, RefOf(u.m[k])) && (k > t ==> IsField(u.m[k]))
    {
      CarriedWord(w, v, live, to, rem, a, k);
    }
  }

  lemma NewRoots(w: World, v: World, live: set<int>, to: map<int, int>, rem: seq<int>)
    requires Preserved(w, v, live, to, rem) && WellFormed(w) && Closed(w, live)
    requires forall x :: x in live ==> IsObject(w, x)
    ensures forall k :: v.ylo <= k < v.yhi ==> GoodRef(Unflagged(v), RefOf(Unflagged(v).m[k]))
    ensures forall i :: 0 <= i < |v.roots| ==> GoodRef(Unflagged(v), v.roots[i])
  {
    UnflaggedSame(v);
    forall k | v.ylo <= k < v.yhi
      ensures GoodRef(Unflagged(v), RefOf(Unflagged(v).m[k]))
    {
      assert !IsObject(w, NIL);
      assert v.m[k] == MapWord(to, w.m[k]);
      ImageRefs(to, w.m[k]);
      ImageGood(w, v, live, to, rem, RefOf(w.m[k]));
    }
    forall i | 0 <= i < |v.roots|
      ensures GoodRef(Unflagged(v), v.roots[i])
    {
      ImageGood(w, v, live, to, rem, w.roots[i]);
    }
  }

  /** The heap after a collection can be collected again. */
  lemma StillSound(w: World, v: World, live: set<int>, to: map<int, int>, rem: seq<int>)
    requires Preserved(w, v, live, to, rem) && WellFormed(w) && Closed(w, live)
    requires forall x :: x in live ==> IsObject(w, x)
    requires NoDup(rem) && forall t :: t in rem ==> IsImage(to, live, t)
    ensures Sound(v, rem)
  {
    hide Preserved, WellFormed, Closed, GoodObject, Tiling, GoodRef;
    NewShape(w, v, live, to, rem);
    UnflaggedSame(v);
    NewParsed(w, v, live, to, rem);
    NewRoots(w, v, live, to, rem);
    forall t | IsObject(Unflagged(v), t)
      ensures GoodObject(Unflagged(v), t)
    {
      NewObjects(w, v, live, to, rem, t);
    }
    forall t | t in rem
      ensures IsObject(v, t)
    {
      assert IsImage(to, live, t);
      var a :| a in live && Renamed(to, a) == t;
      ImageGoodHere(w, v, live, to, rem, a);
    }
    SoundFrom(v, rem);
  }

  lemma ImageGoodHere(w: World, v: World, live: set<int>, to: map<int, int>, rem: seq<int>, r: int)
    requires Preserved(w, v, live, to, rem) && WellFormed(w)
    requires forall a :: a in live ==> IsObject(w, a)
    requires r in live
    ensures IsObject(v, Renamed(to, r)) && Renamed(to, r) >= 1
  {
    ImageGood(w, v, live, to, rem, r);
  }

  lemma NewShape(w: World, v: World, live: set<int>, to: map<int, int>, rem: seq<int>)
    requires Preserved(w, v, live, to, rem) && WellFormed(w)
    ensures 1 <= v.lo <= v.hi <= v.limit <= v.ylo <= v.yhi <= |v.m| && Tiling(v.len, v.lo, v.hi)
  {
  }

  lemma SoundFrom(v: World, rem: seq<int>)
    requires 1 <= v.lo <= v.hi <= v.limit <= v.ylo <= v.yhi <= |v.m| && Tiling(v.len, v.lo, v.hi)
    requires forall t :: t in v.len ==> 0 <= t < |v.m| && v.m[t].Head? && v.m[t].size == v.len[t] && (v.m[t].mark <==> t in rem)
    requires forall k :: v.ylo <= k < v.yhi ==> GoodRef(Unflagged(v), RefOf(Unflagged(v).m[k]))
    requires forall i :: 0 <= i < |v.roots| ==> GoodRef(Unflagged(v), v.roots[i])
    requires forall t :: IsObject(Unflagged(v), t) ==> GoodObject(Unflagged(v), t)
    requires forall t :: t in rem ==> IsObject(v, t)
    requires NoDup(rem)
    ensures Sound(v, rem)
  {
  }

  // ----- from the fix-up to the result -----

  /** The heap after the fix-up, before the remembered bits are set again. */
  ghost predicate Fixed(w: World, live: set<int>, m: seq<Word>, hm: seq<Word>, p: Plan, to: map<int, int>, b: int, end: int) {
    && Settling(m, hm, p, to, w.lo, b, end, b) && p.live == live && p.len == w.len
    && OnlyMarks(w, hm, live) && WellFormed(w) && Closed(w, live) && end <= w.hi
    && (forall a :: a in live ==> IsObject(w, a))
    && (forall a :: a in live ==> a < b || a >= end)
    && (forall k :: w.ylo <= k < w.yhi && 0 <= k < |m| ==> m[k] == MapWord(to, w.m[k]))
  }

  /** A live object's new place. */
  lemma NewPlace(w: World, live: set<int>, m: seq<Word>, hm: seq<Word>, p: Plan, to: map<int, int>, b: int, end: int, a: int)
    requires Fixed(w, live, m, hm, p, to, b, end) && a in live
    ensures var t := Renamed(to, a);
            && a in w.len && t in p.tile && p.tile[t] == w.len[a] && 1 <= a && 1 <= t && t + w.len[a] <= b <= |m|
            && a + w.len[a] <= |w.m| == |hm| == |m| && w.len[a] >= 1
            && (a in to <==> a >= end)
            && m[t] == Head(w.len[a], false, Renamed(to, RefOf(w.m[a])))
            && (forall k :: t < k < t + w.len[a] ==> m[k] == MapWord(to, w.m[k - t + a]))
  {
    hide Fixed, Copied, WellFormed, OnlyMarks, Tiling;
    FixedTiling(w, live, m, hm, p, to, b, end);
    PlaceTile(w, live, m, hm, p, to, b, end, a);
    FixedHeap(w, live, m, hm, p, to, b, end, a);
    PlaceWords(w, live, m, hm, to, a, Renamed(to, a));
  }

  lemma FixedHeap(w: World, live: set<int>, m: seq<Word>, hm: seq<Word>, p: Plan, to: map<int, int>, b: int, end: int, a: int)
    requires Fixed(w, live, m, hm, p, to, b, end) && a in live
    ensures WellFormed(w) && OnlyMarks(w, hm, live) && p.len == w.len && w.lo >= 1
    ensures a in w.len && w.lo <= a < a + w.len[a] <= |w.m|
  {
    hide Settling, Closed, OnlyMarks;
    assert IsObject(w, a);
  }

  lemma PlaceTile(w: World, live: set<int>, m: seq<Word>, hm: seq<Word>, p: Plan, to: map<int, int>, b: int, end: int, a: int)
    requires Fixed(w, live, m, hm, p, to, b, end) && a in live
    ensures var t := Renamed(to, a);
            a in p.len && t in p.tile && p.tile[t] == p.len[a] && w.lo <= t && t + p.len[a] <= b && (a in to <==> a >= end)
            && Copied(m, hm, to, a, t, p.len[a])
  {
    hide OnlyMarks, WellFormed, Closed, Copied, Padded, Forwards, IsTarget, IsChunk;
  }

  lemma PlaceWords(w: World, live: set<int>, m: seq<Word>, hm: seq<Word>, to: map<int, int>, a: int, t: int)
    requires WellFormed(w) && OnlyMarks(w, hm, live) && a in w.len && Copied(m, hm, to, a, t, w.len[a])
    ensures m[t] == Head(w.len[a], false, Renamed(to, RefOf(w.m[a])))
    ensures forall k :: t < k < t + w.len[a] ==> m[k] == MapWord(to, w.m[k - t + a])
  {
    forall k | t < k < t + w.len[a]
      ensures m[k] == MapWord(to, w.m[k - t + a])
    {
      assert m[k] == MapWord(to, hm[k - t + a]);
      assert k - t + a !in w.len;
    }
  }

  lemma NewPlacesDiffer(w: World, live: set<int>, m: seq<Word>, hm: seq<Word>, p: Plan, to: map<int, int>, b: int, end: int)
    requires Fixed(w, live, m, hm, p, to, b, end)
    ensures OneToOne(to, live)
  {
    hide Settling, OnlyMarks, WellFormed, Closed;
    forall a, c | a in live && c in live && a != c
      ensures Renamed(to, a) != Renamed(to, c)
    {
      Apart(w, live, m, hm, p, to, b, end, a, c);
    }
  }

  lemma Apart(w: World, live: set<int>, m: seq<Word>, hm: seq<Word>, p: Plan, to: map<int, int>, b: int, end: int, a: int, c: int)
    requires Fixed(w, live, m, hm, p, to, b, end) && a in live && c in live && a != c
    ensures Renamed(to, a) != Renamed(to, c)
  {
  }

  lemma Leftover(w: World, live: set<int>, m: seq<Word>, hm: seq<Word>, p: Plan, to: map<int, int>, b: int, end: int, t: int)
    requires Fixed(w, live, m, hm, p, to, b, end) && t in p.tile && !IsImage(to, live, t)
    ensures IsFiller(m, t, p.tile[t])
  {
    assert t < b && t !in to && Renamed(to, t) == t;
    assert forall a :: a in to ==> a in live && Renamed(to, a) == to[a];
  }

  /** What the setting of the remembered bits does to a carried object. */
  lemma FlaggedWords(m: seq<Word>, m': seq<Word>, rem: seq<int>, t: int, n: int, tile: map<int, int>, lo: int, hi: int)
    requires FlaggedUpTo(m, m', rem, |rem|, true) && t in tile && tile[t] == n && 0 <= t && t + n <= |m|
    requires Tiling(tile, lo, hi) && forall t :: t in rem ==> t in tile
    ensures m'[t] == if t in rem then Flag(m[t], true) else m[t]
    ensures forall k :: t < k < t + n ==> m'[k] == m[k]
  {
    assert rem[..|rem|] == rem;
    assert forall k :: t < k < t + n ==> k !in tile;
  }

  lemma FixedTiling(w: World, live: set<int>, m: seq<Word>, hm: seq<Word>, p: Plan, to: map<int, int>, b: int, end: int)
    requires Fixed(w, live, m, hm, p, to, b, end)
    ensures 1 <= w.lo <= b <= w.hi <= w.limit <= w.ylo <= w.yhi <= |w.m| == |m| == |hm| && Tiling(p.tile, w.lo, b)
    ensures forall a :: a in to ==> a in live
  {
  }

  lemma FixedYoung(w: World, live: set<int>, m: seq<Word>, hm: seq<Word>, p: Plan, to: map<int, int>, b: int, end: int)
    requires Fixed(w, live, m, hm, p, to, b, end)
    ensures forall k :: w.ylo <= k < w.yhi && 0 <= k < |m| ==> m[k] == MapWord(to, w.m[k])
  {
    hide Settling, WellFormed, OnlyMarks, Closed;
  }

  /** The whole collection preserves the heap. */
  lemma AllPreserved(w: World, v: World, live: set<int>, m: seq<Word>, hm: seq<Word>, p: Plan, to: map<int, int>, b: int, end: int, rem: seq<int>)
    requires Fixed(w, live, m, hm, p, to, b, end) && FlaggedUpTo(m, v.m, rem, |rem|, true)
    requires forall t :: t in rem ==> IsImage(to, live, t)
    requires v == w.(m := v.m, len := p.tile, hi := b, roots := Renaming(w.roots, to))
    ensures Preserved(w, v, live, to, rem)
  {
    hide Fixed, Tiling, FlaggedUpTo;
    FixedTiling(w, live, m, hm, p, to, b, end);
    NewPlacesDiffer(w, live, m, hm, p, to, b, end);
    RemTiled(w, live, m, hm, p, to, b, end, rem);
    FlaggedLength(m, v.m, rem);
    forall a | a in live
      ensures Carried(w, v, to, rem, a)
    {
      NewPlace(w, live, m, hm, p, to, b, end, a);
      FlaggedWords(m, v.m, rem, Renamed(to, a), w.len[a], p.tile, w.lo, b);
    }
    forall t | t in v.len && !IsImage(to, live, t)
      ensures IsFiller(v.m, t, v.len[t])
    {
      Leftover(w, live, m, hm, p, to, b, end, t);
      FillerBounds(p.tile, w.lo, b, t);
      FlaggedWords(m, v.m, rem, t, p.tile[t], p.tile, w.lo, b);
    }
    FlaggedBeyond(m, v.m, rem, p.tile, w.lo, b);
    FixedYoung(w, live, m, hm, p, to, b, end);
  }

  lemma FlaggedLength(m: seq<Word>, m': seq<Word>, rem: seq<int>)
    requires FlaggedUpTo(m, m', rem, |rem|, true)
    ensures |m'| == |m|
  {
  }

  lemma FillerBounds(tile: map<int, int>, lo: int, hi: int, t: int)
    requires Tiling(tile, lo, hi) && t in tile
    ensures lo <= t < t + tile[t] <= hi
  {
  }

  lemma RemTiled(w: World, live: set<int>, m: seq<Word>, hm: seq<Word>, p: Plan, to: map<int, int>, b: int, end: int, rem: seq<int>)
    requires Fixed(w, live, m, hm, p, to, b, end) && forall t :: t in rem ==> IsImage(to, live, t)
    ensures forall t :: t in rem ==> t in p.tile
  {
    hide Fixed;
    forall t | t in rem
      ensures t in p.tile
    {
      assert IsImage(to, live, t);
      var a :| a in live && Renamed(to, a) == t;
      NewPlace(w, live, m, hm, p, to, b, end, a);
    }
  }

  lemma FlaggedBeyond(m: seq<Word>, m': seq<Word>, rem: seq<int>, tile: map<int, int>, lo: int, hi: int)
    requires FlaggedUpTo(m, m', rem, |rem|, true)
    requires Tiling(tile, lo, hi) && forall t :: t in rem ==> t in tile
    ensures forall k :: 0 <= k < |m| && hi <= k ==> m'[k] == m[k]
  {
    assert rem[..|rem|] == rem;
    assert forall k :: hi <= k ==> k !in tile;
  }

  /** The new remembered set: the members that are still live, renamed. */
  lemma NewRemembered(w: World, rem: seq<int>, live: set<int>, to: map<int, int>)
    requires Sound(w, rem) && OneToOne(to, live)
    ensures var kept := Renaming(Only(rem, live), to);
            && NoDup(kept) && (forall t :: t in kept ==> IsImage(to, live, t))
            && (forall a :: a in live ==> (Renamed(to, a) in kept <==> a in rem))
  {
    OnlyHas(rem, live);
    var only := Only(rem, live);
    var kept := Renaming(only, to);
    forall i, j | 0 <= i < j < |kept|
      ensures kept[i] != kept[j]
    {
      assert only[i] in live && only[j] in live;
    }
    forall t | t in kept
      ensures IsImage(to, live, t)
    {
      var i :| 0 <= i < |kept| && kept[i] == t;
      assert only[i] in live;
    }
    forall a | a in live
      ensures Renamed(to, a) in kept <==> a in rem
    {
      if a in rem {
        assert a in only;
        var i :| 0 <= i < |only| && only[i] == a;
        assert kept[i] == Renamed(to, a);
      }
      if Renamed(to, a) in kept {
        var i :| 0 <= i < |kept| && kept[i] == Renamed(to, a);
        assert only[i] in live;
      }
    }
  }
}
