/** The two collectors of vm/gc.c keep one another's invariants. */
module BothGenerations {
  import opened Heap
  import opened CompactionPlan
  import opened Copying
  import Marking
  import OldCollection

  /** The heap as the collector of the old generation sees it. */
  function ForOld(y: Before): Marking.World {
    Marking.World(y.m, y.olds, y.olo, y.ohi, y.olimit, y.flo, y.fhi, y.roots)
  }

  /** Every word of a tiled region is in some piece. */
  lemma {:induction false} Within(len: map<int, int>, lo: int, hi: int, a: int, k: int) returns (b: int)
    requires Tiling(len, lo, hi) && (a == hi || a in len) && a <= k < hi
    ensures b in len && b <= k < b + len[b]
    decreases hi - a
  {
    if k < a + len[a] {
      b := a;
    } else {
      assert Followed(len, a, hi);
      b := Within(len, lo, hi, a + len[a], k);
    }
  }

  lemma YoungWordGood(y: Before, k: int)
    requires Layout(y) && ObjectsGood(y) && y.flo <= k < y.fhi
    ensures 0 <= k < |y.m| && GoodRef(y, RefOf(y.m[k]))
  {
    var a := Within(y.young, y.flo, y.fhi, y.flo, k);
    assert y.m[a].Head? && GoodWords(y, a, y.young[a]);
  }

  lemma SameObjects(y: Before)
    ensures forall a :: Marking.IsObject(OldCollection.Unflagged(ForOld(y)), a) <==> IsOld(y, a)
    ensures forall a :: Marking.IsObject(ForOld(y), a) <==> IsOld(y, a)
  {
    OldCollection.UnflaggedSame(ForOld(y));
  }

  lemma RefForOld(y: Before, r: int)
    requires GoodRef(y, r)
    ensures Marking.GoodRef(OldCollection.Unflagged(ForOld(y)), r) && Marking.GoodRef(ForOld(y), r)
  {
    SameObjects(y);
  }

  lemma ObjectForOld(y: Before, a: int)
    requires IsOld(y, a) && GoodWords(y, a, y.olds[a])
    ensures Marking.GoodObject(OldCollection.Unflagged(ForOld(y)), a)
  {
    hide GoodRef;
    var u := OldCollection.Unflagged(ForOld(y));
    OldCollection.UnflaggedSame(ForOld(y));
    forall k | a <= k < a + u.len[a] && 0 <= k < |u.m|
      ensures Marking.GoodRef(u, RefOf(u.m[k]))
    {
      RefForOld(y, RefOf(y.m[k]));
    }
  }

  /** A healthy heap is sound for a collection of the old generation. */
  lemma HealthySound(y: Before)
    requires Healthy(y)
    ensures OldCollection.Sound(ForOld(y), y.rem)
    ensures forall a :: a in y.table ==> Marking.GoodRef(ForOld(y), y.table[a])
  {
    hide GoodRef, GoodWords, NoYoung, IsOld;
    var w := ForOld(y);
    var u := OldCollection.Unflagged(w);
    OldCollection.UnflaggedSame(w);
    SameObjects(y);
    forall a | Marking.IsObject(u, a)
      ensures Marking.GoodObject(u, a)
    {
      ObjectForOld(y, a);
    }
    forall k | u.ylo <= k < u.yhi
      ensures Marking.GoodRef(u, RefOf(u.m[k]))
    {
      YoungWordGood(y, k);
      RefForOld(y, RefOf(y.m[k]));
    }
    forall i | 0 <= i < |u.roots|
      ensures Marking.GoodRef(u, u.roots[i])
    {
      RefForOld(y, y.roots[i]);
    }
    forall a | a in y.table
      ensures Marking.GoodRef(w, y.table[a])
    {
      RefForOld(y, y.table[a]);
    }
    ParsedUnflagged(y);
  }

  lemma ParsedUnflagged(y: Before)
    requires Layout(y)
    ensures var u := OldCollection.Unflagged(ForOld(y));
            Parsed(u.m, u.len, u.lo, u.hi) && forall a :: a in u.len ==> !u.m[a].mark
  {
  }

  /** The heap after a collection of the old generation that left `v`. */
  function Compacted(y: Before, v: Marking.World, table: map<int, int>, rem: seq<int>): Before {
    y.(m := v.m, olds := v.len, ohi := v.hi, roots := v.roots, table := table, rem := rem)
  }

  /** What the collection of the old generation has achieved. */
  ghost predicate Collected(y: Before, v: Marking.World, live: set<int>, to: map<int, int>, rem: seq<int>) {
    && Healthy(y) && OldCollection.Preserved(OldCollection.Unflagged(ForOld(y)), v, live, to, rem) && OldCollection.Sound(v, rem)
    && rem == OldCollection.Renaming(OldCollection.Only(y.rem, live), to)
    && (forall a :: a in live ==> IsOld(y, a))
  }

  /** Live old objects go to old places; nothing else is renamed. */
  lemma RenamedWhere(y: Before, v: Marking.World, live: set<int>, to: map<int, int>, rem: seq<int>)
    requires Collected(y, v, live, to, rem)
    ensures forall a :: a in to ==> a in live && y.olo <= a < y.ohi
    ensures forall a :: a in live ==> Renamed(to, a) in v.len && y.olo <= Renamed(to, a) < v.hi <= y.ohi && y.olo <= a < y.ohi
    ensures forall r :: InNew(y, Renamed(to, r)) <==> InNew(y, r)
    ensures NIL !in to
  {
    var w := OldCollection.Unflagged(ForOld(y));
    forall a | a in live
      ensures Renamed(to, a) in v.len && y.olo <= Renamed(to, a) < v.hi && y.olo <= a < y.ohi
    {
      assert OldCollection.Carried(w, v, to, rem, a);
    }
    OutsideOld(y, v, live, to);
  }

  lemma OutsideOld(y: Before, v: Marking.World, live: set<int>, to: map<int, int>)
    requires Layout(y) && v.hi <= y.ohi && forall a :: a in to ==> a in live
    requires forall a :: a in live ==> y.olo <= Renamed(to, a) < v.hi && y.olo <= a < y.ohi
    ensures forall r :: InNew(y, Renamed(to, r)) <==> InNew(y, r)
  {
    forall r
      ensures InNew(y, Renamed(to, r)) <==> InNew(y, r)
    {
      if r in to {
        assert r in live;
      }
    }
  }

  /** A reference good before is good after, once renamed. */
  lemma RefAfter(y: Before, v: Marking.World, live: set<int>, to: map<int, int>, table: map<int, int>, rem: seq<int>, r: int)
    requires Collected(y, v, live, to, rem) && GoodRef(y, r) && Marking.GoodRef(OldCollection.Unflagged(v), Renamed(to, r))
    ensures GoodRef(Compacted(y, v, table, rem), Renamed(to, r))
  {
    hide Collected;
    RenamedWhere(y, v, live, to, rem);
    var z := Compacted(y, v, table, rem);
    CollectedBounds(y, v, live, to, rem);
    SameObjects(z);
    assert ForOld(z) == v;
    if InNew(y, r) {
      assert r !in to by {
        NotBoth(y, v, live, to, rem, r);
      }
    }
  }

  lemma NotBoth(y: Before, v: Marking.World, live: set<int>, to: map<int, int>, rem: seq<int>, r: int)
    requires Collected(y, v, live, to, rem) && InNew(y, r)
    ensures r !in to
  {
    RenamedWhere(y, v, live, to, rem);
  }

  lemma CollectedBounds(y: Before, v: Marking.World, live: set<int>, to: map<int, int>, rem: seq<int>)
    requires Collected(y, v, live, to, rem)
    ensures v.lo == y.olo && v.limit == y.olimit && v.ylo == y.flo && v.yhi == y.fhi && |v.m| == |y.m| && v.hi <= y.ohi
    ensures v == Marking.World(v.m, v.len, y.olo, v.hi, y.olimit, y.flo, y.fhi, v.roots)
  {
  }

  lemma CompactedLayout(y: Before, v: Marking.World, live: set<int>, to: map<int, int>, table: map<int, int>, rem: seq<int>)
    requires Collected(y, v, live, to, rem)
    ensures Layout(Compacted(y, v, table, rem))
  {
    hide Collected, OldCollection.Unflagged, OldCollection.Sound, OldCollection.Preserved;
    CollectedBounds(y, v, live, to, rem);
    OldHeads(y, v, live, to, rem);
    HealthyThen(y, v, live, to, rem);
    forall a | a in y.young
      ensures 0 <= a < |v.m| && v.m[a].Head? && v.m[a].size == y.young[a]
    {
      YoungRange(y, a);
      YoungWordMapped(y, v, live, to, rem, a);
    }
    LayoutFrom(y, v, table, rem);
  }

  lemma HealthyThen(y: Before, v: Marking.World, live: set<int>, to: map<int, int>, rem: seq<int>)
    requires Collected(y, v, live, to, rem)
    ensures Healthy(y)
  {
  }

  /** The old generation parses after the collection. */
  lemma OldHeads(y: Before, v: Marking.World, live: set<int>, to: map<int, int>, rem: seq<int>)
    requires Collected(y, v, live, to, rem)
    ensures Tiling(v.len, v.lo, v.hi)
    ensures forall a :: a in v.len ==> 0 <= a < |v.m| && v.m[a].Head? && v.m[a].size == v.len[a]
  {
    var u := OldCollection.Unflagged(v);
    assert Marking.WellFormed(u);
    forall a | a in v.len
      ensures 0 <= a < |v.m| && v.m[a].Head? && v.m[a].size == v.len[a]
    {
      assert u.m[a].Head? && u.m[a].size == u.len[a];
    }
  }

  lemma LayoutFrom(y: Before, v: Marking.World, table: map<int, int>, rem: seq<int>)
    requires Layout(y) && |v.m| == |y.m| && v.lo == y.olo && v.hi <= y.ohi && Tiling(v.len, v.lo, v.hi)
    requires forall a :: a in v.len ==> 0 <= a < |v.m| && v.m[a].Head? && v.m[a].size == v.len[a]
    requires forall a :: a in y.young ==> 0 <= a < |v.m| && v.m[a].Head? && v.m[a].size == y.young[a]
    ensures Layout(Compacted(y, v, table, rem))
  {
  }

  lemma CompactedYoung(y: Before, v: Marking.World, live: set<int>, to: map<int, int>, table: map<int, int>, rem: seq<int>, a: int)
    requires Collected(y, v, live, to, rem) && a in y.young
    ensures 0 <= a < |v.m| && v.m[a].Head? && v.m[a].ct != NIL && !v.m[a].mark
    ensures GoodWords(Compacted(y, v, table, rem), a, y.young[a])
  {
    hide Collected, GoodRef, Tiling, Parsed;
    var z := Compacted(y, v, table, rem);
    var n := y.young[a];
    HealthyThen(y, v, live, to, rem);
    YoungRange(y, a);
    RenamedWhere(y, v, live, to, rem);
    CollectedBounds(y, v, live, to, rem);
    forall k | a <= k < a + n
      ensures GoodRef(z, RefOf(v.m[k])) && (k > a ==> IsField(v.m[k])) && v.m[k] == MapWord(to, y.m[k])
      ensures RefOf(v.m[k]) == Renamed(to, RefOf(y.m[k]))
    {
      YoungWordAfter(y, v, live, to, table, rem, k);
      assert k > a ==> IsField(y.m[k]);
    }
  }

  lemma YoungRange(y: Before, a: int)
    requires Healthy(y) && a in y.young
    ensures y.flo <= a < a + y.young[a] <= y.fhi <= |y.m| && 1 <= a
    ensures y.m[a].Head? && y.m[a].size == y.young[a] && y.m[a].ct != NIL && !y.m[a].mark && GoodWords(y, a, y.young[a])
  {
  }

  lemma YoungWordAfter(y: Before, v: Marking.World, live: set<int>, to: map<int, int>, table: map<int, int>, rem: seq<int>, k: int)
    requires Collected(y, v, live, to, rem) && y.flo <= k < y.fhi
    ensures 0 <= k < |v.m| == |y.m| && v.m[k] == MapWord(to, y.m[k])
    ensures RefOf(v.m[k]) == Renamed(to, RefOf(y.m[k])) && GoodRef(Compacted(y, v, table, rem), RefOf(v.m[k]))
  {
    hide GoodRef;
    YoungWordGood(y, k);
    RenamedWhere(y, v, live, to, rem);
    OldCollection.ImageRefs(to, y.m[k]);
    OldCollection.UnflaggedSame(v);
    assert Marking.WellFormed(OldCollection.Unflagged(v));
    YoungWordMapped(y, v, live, to, rem, k);
    RefAfter(y, v, live, to, table, rem, RefOf(y.m[k]));
  }

  lemma YoungWordMapped(y: Before, v: Marking.World, live: set<int>, to: map<int, int>, rem: seq<int>, k: int)
    requires Collected(y, v, live, to, rem) && y.flo <= k < y.fhi && 0 <= k < |y.m|
    ensures |v.m| == |y.m| && v.m[k] == MapWord(to, y.m[k])
  {
    var w := OldCollection.Unflagged(ForOld(y));
    assert w.m[k] == y.m[k];
  }

  /** What an old object that has a type was. */
  lemma WasLive(y: Before, v: Marking.World, live: set<int>, to: map<int, int>, table: map<int, int>, rem: seq<int>, t: int) returns (a: int)
    requires Collected(y, v, live, to, rem) && IsOld(Compacted(y, v, table, rem), t)
    ensures a in live && Renamed(to, a) == t && IsOld(y, a) && v.len[t] == y.olds[a]
    ensures OldCollection.Carried(OldCollection.Unflagged(ForOld(y)), v, to, rem, a)
  {
    var w := OldCollection.Unflagged(ForOld(y));
    assert !IsFiller(v.m, t, v.len[t]);
    assert OldCollection.IsImage(to, live, t);
    a :| a in live && Renamed(to, a) == t;
    assert OldCollection.Carried(w, v, to, rem, a);
  }

  lemma OldWordAfter(y: Before, v: Marking.World, live: set<int>, to: map<int, int>, rem: seq<int>, a: int, k: int)
    requires Collected(y, v, live, to, rem) && a in live
    requires a in y.olds && Renamed(to, a) <= k < Renamed(to, a) + y.olds[a]
    ensures 0 <= k < |v.m| && 0 <= a <= k - Renamed(to, a) + a < |y.m|
    ensures RefOf(v.m[k]) == Renamed(to, RefOf(y.m[k - Renamed(to, a) + a]))
  {
    hide Collected, OldCollection.Carried, OldCollection.Unflagged;
    var w := OldCollection.Unflagged(ForOld(y));
    CarriedOf(y, v, live, to, rem, a);
    RenamedWhere(y, v, live, to, rem);
    CarriedRef(w, v, to, rem, a, k) by {
      UnflaggedLength(y);
    }
    OldCollection.UnflaggedSame(ForOld(y));
  }

  lemma UnflaggedLength(y: Before)
    ensures OldCollection.Unflagged(ForOld(y)).len == y.olds && |OldCollection.Unflagged(ForOld(y)).m| == |y.m|
  {
  }

  lemma CarriedOf(y: Before, v: Marking.World, live: set<int>, to: map<int, int>, rem: seq<int>, a: int)
    requires Collected(y, v, live, to, rem) && a in live
    ensures OldCollection.Carried(OldCollection.Unflagged(ForOld(y)), v, to, rem, a)
  {
  }

  /** The reference in a word of a carried object. */
  lemma CarriedRef(w: Marking.World, v: Marking.World, to: map<int, int>, rem: seq<int>, a: int, k: int)
    requires OldCollection.Carried(w, v, to, rem, a) && NIL !in to && a in w.len && Renamed(to, a) <= k < Renamed(to, a) + w.len[a]
    ensures 0 <= k < |v.m| && 0 <= a <= k - Renamed(to, a) + a < |w.m|
    ensures RefOf(v.m[k]) == Renamed(to, RefOf(w.m[k - Renamed(to, a) + a]))
  {
    if k > Renamed(to, a) {
      assert v.m[k] == MapWord(to, w.m[k - Renamed(to, a) + a]);
      OldCollection.ImageRefs(to, w.m[k - Renamed(to, a) + a]);
    }
  }

  lemma CompactedOld(y: Before, v: Marking.World, live: set<int>, to: map<int, int>, table: map<int, int>, rem: seq<int>, t: int)
    requires Collected(y, v, live, to, rem) && IsOld(Compacted(y, v, table, rem), t)
    ensures GoodWords(Compacted(y, v, table, rem), t, v.len[t])
    ensures t !in rem ==> NoYoung(y, v.m, t, v.len[t])
  {
    hide Collected, GoodRef, OldCollection.Carried;
    var z := Compacted(y, v, table, rem);
    var a := WasLive(y, v, live, to, table, rem, t);
    OldBefore(y, v, live, to, rem, a);
    OldGood(y, v, live, to, table, rem, t);
    forall k | t <= k < t + v.len[t] && 0 <= k < |v.m|
      ensures GoodRef(z, RefOf(v.m[k])) && (t !in rem ==> !InNew(y, RefOf(v.m[k])))
    {
      OldWordAfter(y, v, live, to, rem, a, k);
      var r := RefOf(y.m[k - t + a]);
      assert GoodRef(y, r);
      RefAfter(y, v, live, to, table, rem, r);
      RenamedWhere(y, v, live, to, rem);
    }
    OldType(y, v, live, to, rem, a, t);
  }

  lemma OldType(y: Before, v: Marking.World, live: set<int>, to: map<int, int>, rem: seq<int>, a: int, t: int)
    requires Collected(y, v, live, to, rem) && a in live && Renamed(to, a) == t
    ensures 0 <= t < |v.m| && !InNew(y, RefOf(v.m[t]))
  {
    assert OldCollection.Carried(OldCollection.Unflagged(ForOld(y)), v, to, rem, a);
    OldBefore(y, v, live, to, rem, a);
    OldWordAfter(y, v, live, to, rem, a, t);
    RenamedWhere(y, v, live, to, rem);
  }

  lemma OldBefore(y: Before, v: Marking.World, live: set<int>, to: map<int, int>, rem: seq<int>, a: int)
    requires Collected(y, v, live, to, rem) && a in live
    ensures a in y.olds && 0 <= a && a + y.olds[a] <= |y.m| && y.olds[a] >= 1 && GoodWords(y, a, y.olds[a])
    ensures Renamed(to, a) !in rem ==> NoYoung(y, y.m, a, y.olds[a])
  {
    assert IsOld(y, a);
    HealthySound(y);
    OldCollection.NewRemembered(ForOld(y), y.rem, live, to);
  }

  /** What the collection of the old generation says of an object it kept. */
  lemma OldGood(y: Before, v: Marking.World, live: set<int>, to: map<int, int>, table: map<int, int>, rem: seq<int>, t: int)
    requires Collected(y, v, live, to, rem) && IsOld(Compacted(y, v, table, rem), t)
    ensures t in v.len && 0 <= t && t + v.len[t] <= |v.m| && v.len[t] >= 1
    ensures forall k :: t < k < t + v.len[t] ==> IsField(v.m[k])
    ensures forall k :: t <= k < t + v.len[t] ==> Marking.GoodRef(OldCollection.Unflagged(v), RefOf(v.m[k]))
  {
    var u := OldCollection.Unflagged(v);
    OldCollection.UnflaggedSame(v);
    SameObjects(Compacted(y, v, table, rem));
    CollectedBounds(y, v, live, to, rem);
    assert ForOld(Compacted(y, v, table, rem)) == v;
    assert Marking.WellFormed(u);
    assert Marking.IsObject(u, t) && Marking.GoodObject(u, t);
  }

  lemma CompactedObjects(y: Before, v: Marking.World, live: set<int>, to: map<int, int>, table: map<int, int>, rem: seq<int>)
    requires Collected(y, v, live, to, rem)
    ensures ObjectsGood(Compacted(y, v, table, rem))
  {
    hide Collected, GoodWords;
    var z := Compacted(y, v, table, rem);
    forall a | a in z.young && 0 <= a < |z.m| && z.m[a].Head?
      ensures z.m[a].ct != NIL && !z.m[a].mark && GoodWords(z, a, z.young[a])
    {
      CompactedYoung(y, v, live, to, table, rem, a);
    }
    forall a | IsOld(z, a)
      ensures GoodWords(z, a, z.olds[a])
    {
      CompactedOld(y, v, live, to, table, rem, a);
    }
  }

  lemma CompactedRemembered(y: Before, v: Marking.World, live: set<int>, to: map<int, int>, table: map<int, int>, rem: seq<int>)
    requires Collected(y, v, live, to, rem)
    ensures RememberedAll(Compacted(y, v, table, rem))
  {
    var z := Compacted(y, v, table, rem);
    CollectedSound(y, v, live, to, rem);
    CollectedBounds(y, v, live, to, rem);
    SameObjects(z);
    hide Collected, IsOld;
    assert ForOld(z) == v;
    forall a | IsOld(z, a) && a !in z.rem
      ensures NoYoung(z, z.m, a, z.olds[a])
    {
      CompactedOld(y, v, live, to, table, rem, a);
    }
  }

  lemma CollectedSound(y: Before, v: Marking.World, live: set<int>, to: map<int, int>, rem: seq<int>)
    requires Collected(y, v, live, to, rem)
    ensures OldCollection.Sound(v, rem)
  {
  }

  lemma CompactedRoots(y: Before, v: Marking.World, live: set<int>, to: map<int, int>, table: map<int, int>, rem: seq<int>)
    requires Collected(y, v, live, to, rem)
    requires table == map a | a in OldCollection.Purged(y.table, y.olo, y.olimit, live) :: Renamed(to, y.table[a])
    ensures RootsGood(Compacted(y, v, table, rem))
  {
    var z := Compacted(y, v, table, rem);
    RootsAfter(y, v, live, to, rem);
    forall i | 0 <= i < |z.roots|
      ensures GoodRef(z, z.roots[i])
    {
      RefAfter(y, v, live, to, table, rem, y.roots[i]);
    }
    forall a | a in table
      ensures GoodRef(z, table[a])
    {
      EntryAfter(y, v, live, to, rem, y.table[a]);
      RefAfter(y, v, live, to, table, rem, y.table[a]);
    }
    forall a, b | a in table && b in table && a != b
      ensures table[a] != table[b]
    {
      EntriesDiffer(y, v, live, to, rem, y.table[a], y.table[b]);
    }
  }

  lemma RootsAfter(y: Before, v: Marking.World, live: set<int>, to: map<int, int>, rem: seq<int>)
    requires Collected(y, v, live, to, rem)
    ensures |v.roots| == |y.roots| && forall i :: 0 <= i < |y.roots| ==> v.roots[i] == Renamed(to, y.roots[i])
    ensures forall i :: 0 <= i < |y.roots| ==> Marking.GoodRef(OldCollection.Unflagged(v), v.roots[i])
    ensures RootsGood(y)
  {
    assert Marking.WellFormed(OldCollection.Unflagged(v));
  }

  /** A reference to a live object, or elsewhere, stays good. */
  lemma EntryAfter(y: Before, v: Marking.World, live: set<int>, to: map<int, int>, rem: seq<int>, r: int)
    requires Collected(y, v, live, to, rem) && (y.olo <= r < y.olimit ==> r in live)
    ensures Marking.GoodRef(OldCollection.Unflagged(v), Renamed(to, r))
  {
    HealthySound(y);
    SameObjects(y);
    OldCollection.ImageGood(OldCollection.Unflagged(ForOld(y)), v, live, to, rem, r);
  }

  lemma EntriesDiffer(y: Before, v: Marking.World, live: set<int>, to: map<int, int>, rem: seq<int>, r: int, q: int)
    requires Collected(y, v, live, to, rem) && r != q
    requires (y.olo <= r < y.olimit ==> r in live) && (y.olo <= q < y.olimit ==> q in live)
    ensures Renamed(to, r) != Renamed(to, q)
  {
    RenamedWhere(y, v, live, to, rem);
    OneToOneOf(y, v, live, to, rem);
    hide Collected;
    if r in live && q in live {
      assert Renamed(to, r) != Renamed(to, q);
    }
  }

  lemma OneToOneOf(y: Before, v: Marking.World, live: set<int>, to: map<int, int>, rem: seq<int>)
    requires Collected(y, v, live, to, rem)
    ensures OldCollection.OneToOne(to, live) && v.hi <= y.olimit
  {
  }

  /** After a collection of the old generation the heap is healthy again. */
  lemma CompactedHealthy(y: Before, v: Marking.World, live: set<int>, to: map<int, int>, table: map<int, int>, rem: seq<int>)
    requires Collected(y, v, live, to, rem)
    requires table == map a | a in OldCollection.Purged(y.table, y.olo, y.olimit, live) :: Renamed(to, y.table[a])
    ensures Healthy(Compacted(y, v, table, rem))
  {
    hide Collected, Layout, ObjectsGood, RememberedAll, RootsGood;
    CompactedLayout(y, v, live, to, table, rem);
    CompactedObjects(y, v, live, to, table, rem);
    CompactedRemembered(y, v, live, to, table, rem);
    CompactedRoots(y, v, live, to, table, rem);
  }
}
