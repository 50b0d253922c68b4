/** What a whole collection of the young generation has achieved (vm/gc.c). */
module CopyDone {
  import opened Heap
  import opened CompactionPlan
  import opened Copying

  /** Nothing is left to be copied. */
  ghost predicate AllDone(y: Before, c: Copy) {
    && InCopying(y, c, {}) && c.stack == [] && NIL !in c.rem
    && (forall a :: a in y.rem ==> a in c.seen)
    && (forall i :: 0 <= i < |y.roots| ==> Settled(y, c.to, y.roots[i]))
    && (forall a :: a in y.table ==> Settled(y, c.to, y.table[a]))
  }

  /** A word and its final copy. */
  ghost predicate Brought(y: Before, c: Copy, a: int, t: int, n: int) {
    && 0 <= a && a + n <= |y.m| && 0 <= t && t + n <= |c.m|
    && forall k :: t < k < t + n ==> c.m[k] == MapWord(c.to, y.m[k - t + a]) && Settled(y, c.to, RefOf(y.m[k - t + a]))
  }

  lemma CopiedBrought(y: Before, c: Copy, a: int)
    requires AllDone(y, c) && a in c.to
    ensures a in y.young && Brought(y, c, a, c.to[a], y.young[a]) && IsPiece(c, c.to[a], y.young[a]) && y.young[a] >= 1
    ensures y.m[a].Head? && c.m[c.to[a]] == y.m[a].(mark := c.to[a] in c.rem)
    ensures y.m[a].size == y.young[a] && y.m[a].ct != NIL && !InNew(y, y.m[a].ct) && GoodRef(y, y.m[a].ct)
    ensures forall k :: a < k < a + y.young[a] ==> IsField(y.m[k]) && GoodRef(y, RefOf(y.m[k]))
    ensures !IsFresh(y, a) ==> c.to[a] in c.oldNow && c.to[a] >= y.ohi
    ensures IsFresh(y, a) ==> c.to[a] in c.newNow
  {
    hide OldKept, OldScanned, Noted, RemSound, Amounts, OnlyReached, Shape, Bounds, Brought, WordsDone, Scanned, FromKept;
    SeesCopied(y, c, {}, a);
    HealthyParts(y);
    assert InPlace(y, c, a);
    YoungHead(y, a);
    CopyBrought(y, c, a);
  }

  lemma CopyBrought(y: Before, c: Copy, a: int)
    requires WordsDone(y, c) && Scanned(y, c, {}) && a in c.to && a in y.young && c.stack == []
    requires 0 <= a && a + y.young[a] <= |y.m| && 0 <= c.to[a] && c.to[a] + y.young[a] <= |c.m|
    ensures Brought(y, c, a, c.to[a], y.young[a])
  {
    var t := c.to[a];
    assert Finished(c.src, a, t, y.young[a]);
    forall k | t < k < t + y.young[a]
      ensures c.m[k] == MapWord(c.to, y.m[k - t + a]) && Settled(y, c.to, RefOf(y.m[k - t + a]))
    {
      assert k in c.src && c.src[k] == k - t + a;
    }
  }

  lemma YoungHead(y: Before, a: int)
    requires Layout(y) && ObjectsGood(y) && a in y.young
    ensures 0 <= a < |y.m| && y.m[a].Head? && y.m[a].size == y.young[a] && y.m[a].ct != NIL && !y.m[a].mark
  {
  }

  lemma OldBrought(y: Before, c: Copy, o: int)
    requires AllDone(y, c) && IsOld(y, o)
    ensures o in y.olds && Brought(y, c, o, o, y.olds[o]) && o in c.oldNow && c.oldNow[o] == y.olds[o] >= 1
    ensures c.m[o] == y.m[o].(mark := o in c.rem) && !InNew(y, y.m[o].ct) && GoodRef(y, y.m[o].ct) && o < y.ohi
    ensures forall k :: o < k < o + y.olds[o] ==> IsField(y.m[k]) && GoodRef(y, RefOf(y.m[k]))
    ensures o !in c.rem ==> NoYoung(y, c.m, o, y.olds[o])
  {
    hide Scanned, Noted, RemSound, Amounts, OnlyReached, Bounds;
    SeesOld(y, c, {}, o);
    HealthyParts(y);
    OldPiece(y, c, o);
    OldHeadKept(y, c, o);
    if o in c.seen {
      OldSeen(y, c, o);
    } else {
      OldUnseen(y, c, o);
    }
  }

  lemma OldPiece(y: Before, c: Copy, o: int)
    requires Layout(y) && Shape(y, c) && o in y.olds
    ensures 1 <= o && o in c.oldNow && c.oldNow[o] == y.olds[o] >= 1 && |c.m| == |y.m| && o + y.olds[o] <= y.ohi <= |y.m|
  {
  }

  lemma OldHeadKept(y: Before, c: Copy, o: int)
    requires Heads(y, c) && o in y.olds && 0 <= o < |y.m| == |c.m|
    ensures y.m[o].Head? && c.m[o] == y.m[o].(mark := o in c.rem)
  {
  }

  lemma OldSeen(y: Before, c: Copy, o: int)
    requires WordsDone(y, c) && OldScanned(y, c, {}) && o in y.olds && o in c.seen
    requires 0 <= o && o + y.olds[o] <= |y.m| == |c.m|
    ensures Brought(y, c, o, o, y.olds[o]) && (o !in c.rem ==> NoYoung(y, c.m, o, y.olds[o]))
  {
    hide NoYoung;
    assert Finished(c.src, o, o, y.olds[o]);
    forall k | o < k < o + y.olds[o]
      ensures c.m[k] == MapWord(c.to, y.m[k]) && Settled(y, c.to, RefOf(y.m[k]))
    {
      assert k in c.src && c.src[k] == k - o + o;
    }
    assert forall k :: o < k < o + y.olds[o] ==> k - o + o == k && c.m[k] == MapWord(c.to, y.m[k]) && Settled(y, c.to, RefOf(y.m[k]));
  }

  /** An object that was not remembered has not changed. */
  lemma OldUnseen(y: Before, c: Copy, o: int)
    requires AllDone(y, c) && IsOld(y, o) && o !in c.seen
    ensures 0 <= o && o + y.olds[o] <= |y.m| == |c.m|
    ensures Brought(y, c, o, o, y.olds[o]) && NoYoung(y, c.m, o, y.olds[o])
  {
    hide Scanned, Noted, RemSound, Amounts, OnlyReached, Bounds, Shape, Layout, Targets, ObjectsGood, Tiling, WordsDone, OldKept, FromKept, Heads, GoodRef;
    SeesOld(y, c, {}, o);
    HealthyParts(y);
    KeysInNew(y, c);
    UnseenBrought(y, c, o);
  }

  lemma UnseenBrought(y: Before, c: Copy, o: int)
    requires OldScanned(y, c, {}) && RememberedAll(y) && IsOld(y, o) && o !in y.rem && o !in c.seen
    requires 0 <= o && o + y.olds[o] <= |y.m| == |c.m| && c.m[o].Head? && c.m[o].ct == RefOf(y.m[o])
    requires forall k :: o < k < o + y.olds[o] && k !in c.src ==> c.m[k] == y.m[k]
    requires forall a :: a in c.to ==> InNew(y, a)
    ensures Brought(y, c, o, o, y.olds[o]) && NoYoung(y, c.m, o, y.olds[o])
  {
    assert NoYoung(y, y.m, o, y.olds[o]) && Unfinished(c.src, o, y.olds[o]);
    forall k | o < k < o + y.olds[o]
      ensures c.m[k] == MapWord(c.to, y.m[k]) && !InNew(y, RefOf(y.m[k])) && c.m[k] == y.m[k]
    {
      assert k !in c.src;
      assert RefOf(y.m[k]) !in c.to;
    }
  }

  lemma KeysInNew(y: Before, c: Copy)
    requires InCopying(y, c, {})
    ensures forall a :: a in c.to ==> InNew(y, a) && a in y.young
    ensures NIL !in c.to
  {
    HealthyParts(y);
    BoundsOf(y, c);
  }

  // ----- exactly the reachable objects -----

  lemma BroughtHolds(y: Before, c: Copy, a: int, t: int, n: int)
    requires Brought(y, c, a, t, n) && n >= 1 && !InNew(y, RefOf(y.m[a]))
    ensures HoldsWords(y, c.to.Keys, a, n)
  {
    forall k | a <= k < a + n && 0 <= k < |y.m| && InNew(y, RefOf(y.m[k]))
      ensures RefOf(y.m[k]) in c.to.Keys
    {
      var d := k - a + t;
      assert d - t + a == k;
      assert c.m[d] == MapWord(c.to, y.m[d - t + a]);
    }
  }

  /** The objects copied are exactly those reached from remembered objects,
      roots and object table entries. */
  lemma ExactlyReached(y: Before, c: Copy)
    requires AllDone(y, c)
    ensures forall a :: a in c.to <==> Reached(y, a)
  {
    hide InCopying, IsOld, Brought;
    forall o | o in y.rem && o in y.olds
      ensures HoldsWords(y, c.to.Keys, o, y.olds[o])
    {
      RememberedIsOld(y, c, o);
      OldBrought(y, c, o);
      BroughtHolds(y, c, o, o, y.olds[o]);
    }
    forall a | a in c.to && a in y.young
      ensures HoldsWords(y, c.to.Keys, a, y.young[a])
    {
      CopiedBrought(y, c, a);
      BroughtHolds(y, c, a, c.to[a], y.young[a]);
    }
    assert Closed(y, c.to.Keys);
    CopiedReached(y, c);
  }

  lemma RememberedIsOld(y: Before, c: Copy, o: int)
    requires InCopying(y, c, {}) && o in y.rem
    ensures IsOld(y, o)
  {
    HealthyParts(y);
  }

  lemma CopiedReached(y: Before, c: Copy)
    requires InCopying(y, c, {})
    ensures forall a :: a in c.to ==> Reached(y, a)
  {
    forall a, x: set<int> | a in c.to && Closed(y, x)
      ensures a in x
    {
      assert c.to.Keys <= x;
    }
  }

  // ----- the heap after the collection -----

  function RenamedRoots(y: Before, to: map<int, int>): (r: seq<int>)
    ensures |r| == |y.roots| && forall i :: 0 <= i < |r| ==> r[i] == Renamed(to, y.roots[i])
  {
    seq(|y.roots|, i requires 0 <= i < |y.roots| => Renamed(to, y.roots[i]))
  }

  /** The survivors fill `[tlo, thi)`; new objects will come below them if `low`. */
  function AfterCopy(y: Before, c: Copy, low: bool): Before {
    Before(c.m, c.newNow, c.oldNow, c.tlo, c.thi, if low then c.tlo else c.thi, low,
           y.olo, c.ng, y.olimit, y.nlo, y.nhi,
           RenamedRoots(y, c.to),
           Entries(y, c.to), c.rem)
  }

  /** Young object `a` is where `to` says: same size, type and data, its
      references renamed; survivors of an earlier collection are in the old
      generation, the others in the new space. */
  ghost predicate Carried(y: Before, v: Before, to: map<int, int>, a: int) {
    && a in to && a in y.young && var t, n := to[a], y.young[a];
    && (if IsFresh(y, a) then t in v.young && v.young[t] == n else t in v.olds && v.olds[t] == n && t >= y.ohi)
    && 0 <= a && a + n <= |y.m| && 0 <= t && t + n <= |v.m| && n >= 1 && y.m[a].Head?
    && v.m[t] == y.m[a].(mark := t in v.rem)
    && (forall k :: t < k < t + n ==> v.m[k] == MapWord(to, y.m[k - t + a]))
  }

  /** Old object `o` is where it was, its references renamed. */
  ghost predicate Stayed(y: Before, v: Before, to: map<int, int>, o: int) {
    && o in y.olds && o in v.olds && v.olds[o] == y.olds[o] && var n := y.olds[o];
    && 0 <= o && o + n <= |y.m| && o + n <= |v.m| && n >= 1 && y.m[o].Head?
    && v.m[o] == y.m[o].(mark := o in v.rem)
    && (forall k :: o < k < o + n ==> v.m[k] == MapWord(to, y.m[k]))
  }

  /** `v` is `y` with exactly the young objects in `to` kept, each in one new
      place under which everything refers to it. */
  ghost predicate Relocated(y: Before, v: Before, to: map<int, int>) {
    && (forall a, b :: a in to && b in to && a != b ==> to[a] != to[b])
    && (forall a {:trigger Carried(y, v, to, a)} :: a in to ==> Carried(y, v, to, a))
    && (forall o {:trigger Stayed(y, v, to, o)} :: IsOld(y, o) ==> Stayed(y, v, to, o))
    && (forall t :: t in v.young ==> IsTarget(to, t))
    && (forall t :: t in v.olds ==> t in y.olds || IsTarget(to, t))
    && (forall t :: t in y.olds && !IsOld(y, t) ==> !IsOld(v, t))
    && |v.roots| == |y.roots| && (forall i :: 0 <= i < |y.roots| ==> v.roots[i] == Renamed(to, y.roots[i]))
    && v.table == Entries(y, to)
  }

  lemma AllRelocated(y: Before, c: Copy, low: bool)
    requires AllDone(y, c)
    ensures Relocated(y, AfterCopy(y, c, low), c.to)
  {
    var v := AfterCopy(y, c, low);
    hide InCopying, IsOld, IsTarget;
    forall a | a in c.to
      ensures Carried(y, v, c.to, a)
    {
      CopiedBrought(y, c, a);
      CopiedPiece(y, c, a);
    }
    forall o | IsOld(y, o)
      ensures Stayed(y, v, c.to, o)
    {
      OldBrought(y, c, o);
      OldHead(y, o);
    }
    forall t | t in y.olds && !IsOld(y, t)
      ensures !IsOld(v, t)
    {
      FillerStays(y, c, low, t);
    }
    NothingElse(y, c);
  }

  lemma FillerStays(y: Before, c: Copy, low: bool, t: int)
    requires AllDone(y, c) && t in y.olds && !IsOld(y, t)
    ensures !IsOld(AfterCopy(y, c, low), t)
  {
    hide InCopying;
    FillerOrOld(y, c, t);
  }

  lemma OldHead(y: Before, o: int)
    requires IsOld(y, o)
    ensures y.m[o].Head?
  {
  }

  lemma CopiedPiece(y: Before, c: Copy, a: int)
    requires InCopying(y, c, {}) && a in c.to
    ensures a in y.young && InPlace(y, c, a)
  {
  }

  lemma NothingElse(y: Before, c: Copy)
    requires InCopying(y, c, {})
    ensures forall a, b :: a in c.to && b in c.to && a != b ==> c.to[a] != c.to[b]
    ensures forall t :: t in c.newNow ==> IsTarget(c.to, t)
    ensures forall t :: t in c.oldNow ==> t in y.olds || IsTarget(c.to, t)
  {
    forall t | t in c.oldNow
      ensures t in y.olds || IsTarget(c.to, t)
    {
      if t < y.ohi {
        OldPieceThere(y.olds, c.oldNow, y.olo, y.ohi, c.ng, y.olo, t);
      }
    }
  }

  /** No piece of the grown tiling lies between the pieces there were. */
  lemma {:induction false} OldPieceThere(len: map<int, int>, len': map<int, int>, lo: int, hi: int, hi': int, a: int, t: int)
    requires Tiling(len, lo, hi) && Tiling(len', lo, hi') && forall x :: x in len ==> x in len' && len'[x] == len[x]
    requires t in len' && a <= t < hi && (a == hi || a in len)
    ensures t in len
    decreases hi - a
  {
    if t != a {
      assert Followed(len, a, hi);
      OldPieceThere(len, len', lo, hi, hi', a + len[a], t);
    }
  }

  // ----- it can be collected again -----

  /** A good reference is good again once it has been renamed. */
  lemma RefGood(y: Before, c: Copy, low: bool, r: int)
    requires AllDone(y, c) && GoodRef(y, r) && Settled(y, c.to, r)
    ensures GoodRef(AfterCopy(y, c, low), Renamed(c.to, r))
    ensures !InNew(y, r) ==> Renamed(c.to, r) == r
  {
    hide InCopying, IsOld;
    var v := AfterCopy(y, c, low);
    NewBounds(y, c);
    KeysInNew(y, c);
    if r in c.to {
      CopiedBrought(y, c, r);
      CopiedIsOld(y, c, low, r);
    } else if y.olo <= r < y.olimit {
      OldBrought(y, c, r);
      OldIsOld(y, c, low, r);
    }
  }

  lemma NewBounds(y: Before, c: Copy)
    requires InCopying(y, c, {})
    ensures 1 <= y.olo <= c.ng <= y.olimit <= y.nlo <= c.tlo <= c.thi <= y.nhi <= |y.m| == |c.m|
    ensures Tiling(c.oldNow, y.olo, c.ng) && Tiling(c.newNow, c.tlo, c.thi)
    ensures forall t :: t in c.oldNow ==> y.olo <= t < t + c.oldNow[t] <= c.ng
    ensures forall t :: t in c.newNow ==> c.tlo <= t < t + c.newNow[t] <= c.thi
  {
    HealthyParts(y);
    BoundsOf(y, c);
  }

  lemma CopiedIsOld(y: Before, c: Copy, low: bool, a: int)
    requires a in c.to && a in y.young && 0 <= a < |y.m| && 0 <= c.to[a] < |c.m| && y.m[a].Head? && y.m[a].ct != NIL
    requires c.m[c.to[a]] == y.m[a].(mark := c.to[a] in c.rem)
    ensures c.to[a] in c.oldNow ==> IsOld(AfterCopy(y, c, low), c.to[a])
  {
  }

  lemma OldIsOld(y: Before, c: Copy, low: bool, o: int)
    requires IsOld(y, o) && o in c.oldNow && 0 <= o < |c.m| && c.m[o] == y.m[o].(mark := o in c.rem)
    ensures IsOld(AfterCopy(y, c, low), o)
  {
  }

  /** The words of an object are good in its new place. */
  lemma WordsGood(y: Before, c: Copy, low: bool, a: int, t: int, n: int)
    requires AllDone(y, c) && Brought(y, c, a, t, n) && n >= 1 && y.m[a].Head? && c.m[t] == y.m[a].(mark := t in c.rem)
    requires !InNew(y, y.m[a].ct) && GoodRef(y, y.m[a].ct)
    requires forall k :: a < k < a + n ==> IsField(y.m[k]) && GoodRef(y, RefOf(y.m[k]))
    ensures GoodWords(AfterCopy(y, c, low), t, n)
  {
    var v := AfterCopy(y, c, low);
    hide AllDone, GoodRef;
    RefGoodHead(y, c, low, y.m[a].ct);
    forall k | t < k < t + n
      ensures GoodRef(v, RefOf(v.m[k])) && IsField(v.m[k])
    {
      var x := y.m[k - t + a];
      assert c.m[k] == MapWord(c.to, x) && Settled(y, c.to, RefOf(x));
      NilKept(y, c);
      RefGood(y, c, low, RefOf(x));
    }
  }

  lemma NilKept(y: Before, c: Copy)
    requires AllDone(y, c)
    ensures NIL !in c.to
  {
    KeysInNew(y, c);
  }

  lemma RefGoodHead(y: Before, c: Copy, low: bool, r: int)
    requires AllDone(y, c) && GoodRef(y, r) && !InNew(y, r)
    ensures GoodRef(AfterCopy(y, c, low), r) && !InNew(AfterCopy(y, c, low), r)
  {
    RefGood(y, c, low, r);
  }

  lemma NewHead(y: Before, c: Copy, low: bool, t: int)
    requires AllDone(y, c) && (t in c.newNow || t in c.oldNow)
    ensures 0 <= t < |c.m| && c.m[t].Head? && c.m[t].size == (if t in c.newNow then c.newNow[t] else c.oldNow[t])
    ensures c.m[t].mark <==> t in c.rem
    ensures t in c.newNow || c.m[t].ct != NIL ==> GoodWords(AfterCopy(y, c, low), t, c.m[t].size)
    ensures t in c.newNow ==> c.m[t].ct != NIL && !c.m[t].mark && t !in c.oldNow
    ensures t in c.oldNow && c.m[t].ct != NIL && t !in c.rem ==> NoYoung(y, c.m, t, c.oldNow[t])
  {
    hide InCopying, IsOld, GoodWords, NoYoung, AllDone, IsFresh;
    NewBoundsHere(y, c);
    OldOrCopied(y, c, t);
    if IsTarget(c.to, t) {
      var a :| a in c.to && c.to[a] == t;
      CopiedBrought(y, c, a);
      WordsGood(y, c, low, a, t, y.young[a]);
      CopiedNoted(y, c, a);
    } else {
      FillerOrOld(y, c, t);
      if IsOld(y, t) {
        OldBrought(y, c, t);
        OldHead(y, t);
        WordsGood(y, c, low, t, t, y.olds[t]);
      }
    }
  }

  lemma NewBoundsHere(y: Before, c: Copy)
    requires AllDone(y, c)
    ensures forall t :: t in c.oldNow ==> 0 <= t < |c.m| && t !in c.newNow
    ensures forall t :: t in c.newNow ==> 0 <= t < |c.m| && t !in c.rem && t !in c.oldNow
  {
    NewBounds(y, c);
    RemOld(y, c);
  }

  lemma RemOld(y: Before, c: Copy)
    requires AllDone(y, c)
    ensures forall t :: t in c.rem ==> t in c.oldNow && (t < y.ohi ==> IsOld(y, t))
    ensures NoDup(c.rem)
  {
    hide IsOld, Shape, Targets, FromKept, WordsDone, Heads, OldKept, Scanned, OldScanned, Noted, Amounts, OnlyReached, Healthy;
    forall t | t in c.rem
      ensures t in c.oldNow && (t < y.ohi ==> IsOld(y, t))
    {
      var i :| 0 <= i < |c.rem| && c.rem[i] == t;
    }
    forall i, j | 0 <= i < j < |c.rem|
      ensures c.rem[i] != c.rem[j]
    {
      assert c.rem[i] in c.rem;
    }
  }

  lemma OldOrCopied(y: Before, c: Copy, t: int)
    requires AllDone(y, c) && (t in c.newNow || t in c.oldNow)
    ensures IsTarget(c.to, t) || t in y.olds
    ensures t in c.newNow ==> IsTarget(c.to, t)
  {
    NothingElse(y, c);
  }

  lemma CopiedNoted(y: Before, c: Copy, a: int)
    requires AllDone(y, c) && a in c.to && a in y.young
    ensures !IsFresh(y, a) && c.to[a] !in c.rem ==> NoYoung(y, c.m, c.to[a], y.young[a])
    ensures if IsFresh(y, a) then c.to[a] in c.newNow && c.newNow[c.to[a]] == y.young[a] else c.to[a] in c.oldNow && c.oldNow[c.to[a]] == y.young[a]
  {
    hide OldScanned, Shape, FromKept, WordsDone, Heads, OldKept, Scanned, Amounts, OnlyReached, Healthy, NoYoung;
    assert InPlace(y, c, a);
  }

  /** An old object has a type or is filler, and its flags word is kept. */
  lemma FillerOrOld(y: Before, c: Copy, t: int)
    requires AllDone(y, c) && t in y.olds
    ensures 0 <= t < |c.m| == |y.m| && y.m[t].Head? && c.m[t] == y.m[t].(mark := t in c.rem)
    ensures t in c.oldNow && c.oldNow[t] == y.olds[t] == y.m[t].size
    ensures IsOld(y, t) <==> y.m[t].ct != NIL
  {
    hide OldScanned, Targets, FromKept, WordsDone, OldKept, Scanned, Amounts, OnlyReached, RemSound, Noted;
    HealthyParts(y);
    OldPiece(y, c, t);
    OldHeadKept(y, c, t);
  }

  /** The heap after a collection is healthy again. */
  lemma StillHealthy(y: Before, c: Copy, low: bool)
    requires AllDone(y, c)
    ensures Healthy(AfterCopy(y, c, low))
  {
    hide AllDone, GoodWords, NoYoung, Layout, ObjectsGood, RememberedAll, RootsGood, IsOld;
    LayoutAgain(y, c, low);
    ObjectsAgain(y, c, low);
    RememberedAgain(y, c, low);
    RootsAgain(y, c, low);
  }

  lemma LayoutAgain(y: Before, c: Copy, low: bool)
    requires AllDone(y, c)
    ensures Layout(AfterCopy(y, c, low))
  {
    hide InCopying, AllDone, GoodWords, NoYoung;
    ForBounds(y, c);
    forall t | t in c.newNow || t in c.oldNow
      ensures 0 <= t < |c.m| && c.m[t].Head? && c.m[t].size == (if t in c.newNow then c.newNow[t] else c.oldNow[t])
    {
      NewHead(y, c, low, t);
    }
    NewBoundsHere(y, c);
  }

  lemma ForBounds(y: Before, c: Copy)
    requires AllDone(y, c)
    ensures 1 <= y.olo <= c.ng <= y.olimit <= y.nlo <= c.tlo <= c.thi <= y.nhi <= |y.m| == |c.m|
    ensures Tiling(c.oldNow, y.olo, c.ng) && Tiling(c.newNow, c.tlo, c.thi)
  {
    NewBounds(y, c);
  }

  lemma ObjectsAgain(y: Before, c: Copy, low: bool)
    requires AllDone(y, c)
    ensures ObjectsGood(AfterCopy(y, c, low))
  {
    hide AllDone, GoodWords, NoYoung;
    var v := AfterCopy(y, c, low);
    forall t | t in v.young
      ensures 0 <= t < |v.m| && v.m[t].Head? && v.m[t].ct != NIL && !v.m[t].mark && GoodWords(v, t, v.young[t])
    {
      NewHead(y, c, low, t);
    }
    forall t | IsOld(v, t)
      ensures GoodWords(v, t, v.olds[t])
    {
      NewHead(y, c, low, t);
      NewBoundsHere(y, c);
    }
  }

  lemma RememberedAgain(y: Before, c: Copy, low: bool)
    requires AllDone(y, c)
    ensures RememberedAll(AfterCopy(y, c, low))
  {
    hide AllDone, GoodWords, NoYoung, IsOld;
    var v := AfterCopy(y, c, low);
    NewBoundsHere(y, c);
    RemOld(y, c);
    forall t | t in v.olds
      ensures 0 <= t < |v.m| && v.m[t].Head? && (v.m[t].mark <==> t in v.rem)
      ensures v.m[t].ct != NIL && t !in v.rem ==> NoYoung(v, v.m, t, v.olds[t])
      ensures t in v.rem ==> v.m[t].ct != NIL
    {
      NewHead(y, c, low, t);
      SameNew(y, c, low, t, v.olds[t]);
      if t in c.rem {
        RemTyped(y, c, t);
      }
    }
    IsOldMeans(v);
  }

  lemma IsOldMeans(v: Before)
    ensures forall a :: IsOld(v, a) <==> a in v.olds && 0 <= a < |v.m| && v.m[a].Head? && v.m[a].ct != NIL
  {
  }

  lemma SameNew(y: Before, c: Copy, low: bool, t: int, n: int)
    ensures NoYoung(y, c.m, t, n) ==> NoYoung(AfterCopy(y, c, low), c.m, t, n)
  {
  }

  /** What is remembered has a type. */
  lemma RemTyped(y: Before, c: Copy, t: int)
    requires AllDone(y, c) && t in c.rem
    ensures 0 <= t < |c.m| && c.m[t].Head? && c.m[t].ct != NIL
  {
    hide AllDone, GoodWords, NoYoung;
    RemOld(y, c);
    OldOrCopied(y, c, t);
    if IsTarget(c.to, t) {
      var a :| a in c.to && c.to[a] == t;
      CopiedBrought(y, c, a);
    } else {
      FillerOrOld(y, c, t);
      BelowOld(y, c, t);
    }
  }

  lemma BelowOld(y: Before, c: Copy, t: int)
    requires AllDone(y, c) && t in y.olds
    ensures t < y.ohi
  {
    HealthyParts(y);
  }

  lemma RootsAgain(y: Before, c: Copy, low: bool)
    requires AllDone(y, c)
    ensures RootsGood(AfterCopy(y, c, low))
  {
    hide GoodRef, InCopying, Settled;
    var v := AfterCopy(y, c, low);
    RootsBefore(y, c);
    forall i | 0 <= i < |v.roots|
      ensures GoodRef(v, v.roots[i])
    {
      RefGood(y, c, low, y.roots[i]);
    }
    forall a | a in v.table
      ensures GoodRef(v, v.table[a])
    {
      RefGood(y, c, low, y.table[a]);
    }
    TableDistinct(y, c);
  }

  lemma RootsBefore(y: Before, c: Copy)
    requires InCopying(y, c, {})
    ensures RootsGood(y)
  {
    HealthyParts(y);
  }

  lemma TableDistinct(y: Before, c: Copy)
    requires InCopying(y, c, {})
    ensures Distinct(Entries(y, c.to))
  {
    HealthyParts(y);
    BoundsOf(y, c);
    EntriesDistinct(y, c);
  }
}
