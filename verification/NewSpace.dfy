/** The copying collector and the allocator of the young generation (vm/gc.c),
    for a copy count of 2. */
module YoungCollector {
  import opened Heap
  import opened CompactionPlan
  import opened Copying
  import opened CopyDone
  import opened BothGenerations
  import opened Mutation
  import Survival
  import ObjectTable
  import Compactor
  import SizeTable
  import Marking
  import OldCollection

  /** The variables of the collector that say where things go. */
  datatype Spaces = Spaces(forward: bool, fromSpace: int, toSpace: int, survivorsStart: int, survivorsEnd: int,
                           newStart: int, newEnd: int, oldStart: int, oldEnd: int)

  predicate Aged(s: Spaces, a: int) {
    s.survivorsStart <= a < s.survivorsEnd
  }

  ghost predicate InSpaces(y: Before, c: Copy, s: Spaces) {
    && y.olo == s.oldStart && y.olimit == s.oldEnd && y.nlo == s.newStart && y.nhi == s.newEnd
    && (if s.forward then y.flo == s.newStart && y.fhi == s.fromSpace && s.toSpace == c.tlo
        else y.flo == s.fromSpace && y.fhi == s.newEnd && s.toSpace == c.thi)
    && (forall a :: a in y.young ==> (Aged(s, a) <==> !IsFresh(y, a)))
  }

  /** A collection is under way; the objects in `open` are being scanned. */
  ghost predicate UnderWayIn(y: Before, c: Copy, s: Spaces, table: map<int, int>, promoted: int, open: set<int>) {
    && InCopying(y, c, open) && Fits(y, c, !s.forward) && InSpaces(y, c, s)
    && table == Entries(y, c.to) && promoted == c.thi - c.tlo
    && (forall a :: a in open && a in y.young ==> a in c.to)
  }

  lemma FromInNew(y: Before, c: Copy, open: set<int>, p: int)
    requires InCopying(y, c, open) && GoodRef(y, p)
    ensures InNew(y, p) <==> y.flo <= p < y.fhi
    ensures p == NIL ==> !InNew(y, p)
    ensures p in c.to ==> c.to[p] != p
  {
    HealthyParts(y);
    BoundsOf(y, c);
    TargetsNew(y, c);
  }

  lemma FitsPlace(y: Before, c: Copy, open: set<int>, r: int, up: bool)
    requires InCopying(y, c, open) && Fits(y, c, up) && r in y.young && r !in c.to
    ensures Place(y, c, r, up) == (if !IsFresh(y, r) then c.ng else if up then c.thi else c.tlo - y.young[r])
    ensures IsFresh(y, r) ==> if up then c.thi + y.young[r] <= y.flo else c.tlo - y.young[r] >= y.fhi
    ensures Place(y, c, r, up) != r
  {
    HealthyParts(y);
    BoundsOf(y, c);
    RoomFor(y, c, r);
    FitsRoom(y, c, open, r, up);
    PlaceFree(y, c, r, up);
  }

  /** Only the entry of the object moved changes. */
  lemma EntriesPlaced(y: Before, c: Copy, p: int, new': int)
    requires RootsGood(y) && Bounds(y, c) && Targets(y, c) && p in y.young && p !in c.to
    ensures Entries(y, c.to[p := new'])
         == ObjectTable.Readdressed(Entries(y, c.to), p, new')
  {
    TargetsNew(y, c);
    hide Bounds, GoodRef, Targets;
    forall a | a in y.table
      ensures Renamed(c.to[p := new'], y.table[a]) == if Renamed(c.to, y.table[a]) == p then new' else Renamed(c.to, y.table[a])
    {
      assert GoodRef(y, y.table[a]);
    }
  }

  lemma UpdateEntries(y: Before, c: Copy, open: set<int>, p: int, new': int)
    requires InCopying(y, c, open) && p in y.young && p !in c.to
    ensures Distinct(Entries(y, c.to))
    ensures Entries(y, c.to[p := new'])
         == ObjectTable.Readdressed(Entries(y, c.to), p, new')
  {
    HealthyParts(y);
    BoundsOf(y, c);
    hide Bounds, Layout, Targets, RootsGood, Entries, Distinct;
    EntriesDistinct(y, c);
    EntriesPlaced(y, c, p, new');
  }

  /** The variables after an object of `n` words has been given a place. */
  function MovedOn(s: Spaces, p: int, n: int): Spaces {
    s.(toSpace := if Aged(s, p) then s.toSpace else if s.forward then s.toSpace - n else s.toSpace + n)
  }

  lemma CarriedWhere(y: Before, c: Copy, s: Spaces, table: map<int, int>, promoted: int, open: set<int>, p: int)
    requires UnderWayIn(y, c, s, table, promoted, open) && p in y.young && p !in c.to
    ensures Aged(s, p) <==> !IsFresh(y, p)
    ensures Distinct(table) && 0 <= p < |c.m| && c.m[p].Head? && c.m[p].size == y.young[p] >= 1
    ensures Place(y, c, p, !s.forward) == if Aged(s, p) then c.ng else if s.forward then s.toSpace - y.young[p] else s.toSpace
    ensures 0 <= Place(y, c, p, !s.forward) < |c.m| && Place(y, c, p, !s.forward) != p
    ensures !Aged(s, p) ==> if s.forward then s.toSpace - y.young[p] >= s.fromSpace else s.toSpace + y.young[p] <= s.fromSpace
    ensures ObjectTable.CanReaddress(table, p, Place(y, c, p, !s.forward))
  {
    hide InCopying, Fits;
    FitsRoom(y, c, open, p, !s.forward);
    FitsPlace(y, c, open, p, !s.forward);
    UpdateEntries(y, c, open, p, 0);
    PlaceUnnamed(y, c, open, p, !s.forward);
  }

  /** The place for another object is named by no identifier. */
  lemma PlaceUnnamed(y: Before, c: Copy, open: set<int>, p: int, up: bool)
    requires InCopying(y, c, open) && p in y.young && p !in c.to && Room(y, c, p, up)
    ensures !ObjectTable.Names(Entries(y, c.to), Place(y, c, p, up))
  {
    HealthyParts(y);
    BoundsOf(y, c);
    PlaceFree(y, c, p, up);
    TargetsIn(y, c);
    forall a | a in y.table
      ensures Renamed(c.to, y.table[a]) != Place(y, c, p, up)
    {
      hide Bounds, Targets, Place;
      assert GoodRef(y, y.table[a]);
      PlaceNoRef(y, c, p, up, y.table[a]);
    }
  }

  /** It is no object, and where objects are to be. */
  lemma PlaceNoRef(y: Before, c: Copy, p: int, up: bool, r: int)
    requires Bounds(y, c) && p in y.young && Room(y, c, p, up) && GoodRef(y, r)
    ensures Place(y, c, p, up) != r
  {
    PlaceFree(y, c, p, up);
  }

  lemma CarriedOn(y: Before, c: Copy, s: Spaces, table: map<int, int>, promoted: int, open: set<int>, p: int, t: int)
    requires UnderWayIn(y, c, s, table, promoted, open) && p in y.young && p !in c.to && Forced(y, c.to.Keys, p)
    requires 0 <= p < |c.m| && 0 <= t < |c.m| && t == Place(y, c, p, !s.forward)
    ensures UnderWayIn(y, Placed(y, c, p, !s.forward), MovedOn(s, p, y.young[p]),
                       ObjectTable.Readdressed(table, p, t),
                       promoted + (if Aged(s, p) then 0 else y.young[p]), open)
  {
    hide InCopying, Fits, Placed, Entries;
    FitsRoom(y, c, open, p, !s.forward);
    UpdateEntries(y, c, open, p, t);
    PlaceCopying(y, c, open, p, !s.forward);
    PlacedParts(y, c, p, !s.forward, t);
  }

  /** Places once given and words once finished stay; the remembered set only
      grows. */
  ghost predicate Extends(c: Copy, c': Copy) {
    && |c.rem| <= |c'.rem| && c'.rem[..|c.rem|] == c.rem
    && (forall a :: a in c.to ==> a in c'.to && c'.to[a] == c.to[a])
    && (forall d :: d in c.src ==> d in c'.src && c'.src[d] == c.src[d])
    && (forall a :: a in c'.stack ==> a in c.stack || a !in c.to)
    && (NIL in c'.rem ==> NIL in c.rem)
  }

  /** The objects that have been copied and are not waiting on the stack. */
  ghost function Flushed(c: Copy): set<int> {
    set a | a in c.to && a !in c.stack
  }

  lemma ExtendsFlushed(c: Copy, c': Copy)
    requires Extends(c, c')
    ensures Flushed(c) <= Flushed(c')
  {
    forall a | a in Flushed(c)
      ensures a in Flushed(c')
    {
    }
  }

  lemma FinishedOn(c: Copy, c': Copy, a: int, t: int, n: int)
    requires Finished(c.src, a, t, n) && Extends(c, c')
    ensures Finished(c'.src, a, t, n)
  {
  }

  lemma FlushedMore(c: Copy, c1: Copy, c3: Copy, p: int)
    requires Extends(c, c3) && Extends(c1, c3) && p in c.stack && p in c1.to && p !in c1.stack
    ensures Flushed(c) <= Flushed(c3) && p in Flushed(c3) && p !in Flushed(c)
  {
    ExtendsFlushed(c, c3);
  }

  lemma ExtendsSeen(a: Copy, c: Copy, c': Copy)
    requires Extends(a, c) && c' == c.(seen := c'.seen)
    ensures Extends(a, c')
  {
  }

  lemma ExtendsPopped(c: Copy)
    requires c.stack != []
    ensures Extends(c, c.(stack := c.stack[..|c.stack| - 1]))
  {
  }

  lemma ExtendsTrans(a: Copy, b: Copy, c: Copy)
    requires Extends(a, b) && Extends(b, c)
    ensures Extends(a, c)
  {
    assert a.rem == b.rem[..|a.rem|] == c.rem[..|b.rem|][..|a.rem|] == c.rem[..|a.rem|];
  }

  lemma ExtendsPlaced(y: Before, c: Copy, r: int, up: bool)
    requires r in y.young && 0 <= r < |c.m| && 0 <= Place(y, c, r, up) < |c.m| && r !in c.to
    ensures Extends(c, Placed(y, c, r, up))
  {
  }

  lemma ExtendsRem(c: Copy, c': Copy)
    requires Extends(c, c')
    ensures |c.rem| <= |c'.rem| && forall j :: 0 <= j < |c.rem| ==> c'.rem[j] == c.rem[j]
  {
    forall j | 0 <= j < |c.rem|
      ensures c'.rem[j] == c.rem[j]
    {
      assert c'.rem[j] == c'.rem[..|c.rem|][j];
    }
  }

  lemma ExtendsSame(c: Copy)
    ensures Extends(c, c)
  {
  }

  predicate SameSides(s: Spaces, s': Spaces) {
    s' == s.(toSpace := s'.toSpace)
  }

  // ----- scanning an object -----

  /** The first `i` words of the object from `a`, of `n` words, are finished at `t`. */
  ghost predicate Scanning(c: Copy, a: int, t: int, n: int, i: int) {
    && 1 <= i <= n
    && (forall d :: t < d < t + i ==> d in c.src && c.src[d] == d - t + a)
    && (forall d :: t + i <= d < t + n ==> d !in c.src)
  }

  /** None of them refers to to-space. */
  ghost predicate Quiet(y: Before, c: Copy, a: int, i: int) {
    forall k :: a < k < a + i && 0 <= k < |y.m| ==> Settled(y, c.to, RefOf(y.m[k])) && !InNew(y, Renamed(c.to, RefOf(y.m[k])))
  }

  lemma ScanningStart(c: Copy, a: int, t: int, n: int)
    requires Unfinished(c.src, t, n) && n >= 1
    ensures Scanning(c, a, t, n, 1)
  {
  }

  lemma QuietStart(y: Before, c: Copy, a: int)
    ensures Quiet(y, c, a, 1)
  {
  }

  lemma ScanningSame(c: Copy, c': Copy, a: int, t: int, n: int, i: int)
    requires Scanning(c, a, t, n, i) && c'.src == c.src
    ensures Scanning(c', a, t, n, i)
  {
  }

  lemma QuietSame(y: Before, c: Copy, c': Copy, a: int, i: int)
    requires Quiet(y, c, a, i) && Extends(c, c') && NewTo(y, c, c')
    ensures Quiet(y, c', a, i)
  {
  }

  /** Places given since are of young objects. */
  ghost predicate NewTo(y: Before, c: Copy, c': Copy) {
    forall a :: a in c'.to && a !in c.to ==> InNew(y, a)
  }

  lemma NewToOf(y: Before, c: Copy, c': Copy, open: set<int>)
    requires InCopying(y, c', open)
    ensures NewTo(y, c, c') && forall a :: a in c'.to ==> InNew(y, a)
  {
    HealthyParts(y);
    BoundsOf(y, c');
  }

  lemma ScanningNext(c: Copy, a: int, t: int, n: int, i: int, w: Word)
    requires Scanning(c, a, t, n, i) && i < n && 0 <= t + i < |c.m|
    ensures Scanning(Finish(c, t + i, w, a + i), a, t, n, i + 1)
  {
  }

  lemma QuietNext(y: Before, c: Copy, a: int, i: int, d: int, w: Word)
    requires Quiet(y, c, a, i) && 0 <= a + i < |y.m| && 0 <= d < |c.m|
    requires Settled(y, c.to, RefOf(y.m[a + i])) && !InNew(y, Renamed(c.to, RefOf(y.m[a + i])))
    ensures Quiet(y, Finish(c, d, w, a + i), a, i + 1)
  {
  }

  lemma ScanningDone(c: Copy, a: int, t: int, n: int)
    requires Scanning(c, a, t, n, n)
    ensures Finished(c.src, a, t, n)
  {
  }

  lemma QuietDone(y: Before, c: Copy, open: set<int>, a: int)
    requires InCopying(y, c, open) && a in c.to && a in y.young && Finished(c.src, a, c.to[a], y.young[a])
    requires Quiet(y, c, a, y.young[a])
    ensures NoYoung(y, c.m, c.to[a], y.young[a])
  {
    SeesCopied(y, c, open, a);
    FinishedNoYoung(y, c, open, a, y.young[a]);
  }

  /** The source and the destination of a word about to be moved. */
  lemma BeforeWord(y: Before, c: Copy, s: Spaces, table: map<int, int>, promoted: int, open: set<int>, a: int, i: int)
    requires UnderWayIn(y, c, s, table, promoted, open) && a in c.to && a in y.young && a in open && 1 <= i < y.young[a]
    requires Scanning(c, a, c.to[a], y.young[a], i)
    ensures 0 <= a + i < |c.m| == |y.m| && c.m[a + i] == y.m[a + i] && IsField(y.m[a + i]) && GoodRef(y, RefOf(y.m[a + i]))
    ensures 0 <= c.to[a] + i < |c.m| && c.to[a] + i !in c.src
    ensures InNew(y, RefOf(y.m[a + i])) ==> Forced(y, c.to.Keys, RefOf(y.m[a + i]))
  {
    hide InCopying, Fits, InSpaces, Entries, Forced;
    SeesCopied(y, c, open, a);
    FieldForced(y, c.to.Keys, a, a + i);
  }

  lemma WordMoved(y: Before, c: Copy, s: Spaces, table: map<int, int>, promoted: int, open: set<int>, t: int, n: int, d: int, w: Word, k: int)
    requires UnderWayIn(y, c, s, table, promoted, open)
    requires IsPiece(c, t, n) && t < d < t + n && d !in c.src && UnderWay(y, c, open, t)
    requires 0 <= k < |y.m| && w == MapWord(c.to, y.m[k]) && Settled(y, c.to, RefOf(y.m[k])) && 0 <= d < |c.m|
    ensures UnderWayIn(y, Finish(c, d, w, k), s, table, promoted, open) && Extends(c, Finish(c, d, w, k))
  {
    hide InCopying, Fits, InSpaces, Entries, UnderWay, IsPiece;
    FinishCopying(y, c, open, t, n, d, w, k);
    FitsSame(y, c, Finish(c, d, w, k), s);
  }

  lemma FitsSame(y: Before, c: Copy, c': Copy, s: Spaces)
    requires Fits(y, c, !s.forward) && InSpaces(y, c, s) && c'.tlo == c.tlo && c'.thi == c.thi
    ensures Fits(y, c', !s.forward) && InSpaces(y, c', s)
  {
  }

  lemma NilOld(y: Before, c: Copy, s: Spaces, table: map<int, int>, promoted: int, open: set<int>)
    requires UnderWayIn(y, c, s, table, promoted, open)
    ensures !InNew(y, NIL) && NIL !in c.to
  {
    NilStays(y, c, open);
  }

  lemma ExtendsAt(c: Copy, c': Copy, a: int)
    requires Extends(c, c') && a in c.to
    ensures a in c'.to && c'.to[a] == c.to[a]
  {
  }

  lemma WordQuiet(y: Before, c: Copy, c': Copy, s: Spaces, table: map<int, int>, promoted: int, open: set<int>,
                  a: int, i: int, d: int, w: Word, loud: bool)
    requires UnderWayIn(y, c', s, table, promoted, open) && Extends(c, c') && 0 <= a + i < |y.m| && 0 <= d < |c'.m|
    requires w == MapWord(c'.to, y.m[a + i]) && Settled(y, c'.to, RefOf(y.m[a + i]))
    requires loud <==> InNew(y, RefOf(y.m[a + i])) && s.newStart <= RefOf(w) < s.newEnd
    ensures !loud && Quiet(y, c, a, i) ==> Quiet(y, Finish(c', d, w, a + i), a, i + 1)
  {
    hide InCopying, Fits, Entries, Quiet, Extends, NewTo;
    NilStays(y, c', open);
    NewToOf(y, c, c', open);
    ImageRef(c'.to, y.m[a + i]);
    if !loud && Quiet(y, c, a, i) {
      QuietSame(y, c, c', a, i);
      QuietNext(y, c', a, i, d, w);
    }
  }

  lemma ImageRef(to: map<int, int>, w: Word)
    requires NIL !in to
    ensures RefOf(MapWord(to, w)) == Renamed(to, RefOf(w))
  {
  }

  lemma CopiedParts(y: Before, c: Copy, s: Spaces, table: map<int, int>, promoted: int, open: set<int>, a: int)
    requires UnderWayIn(y, c, s, table, promoted, open) && a in c.to && a in open
    ensures a in y.young && 0 <= c.to[a] < |c.m| && c.m[c.to[a]].Head? && c.m[c.to[a]].size == y.young[a] >= 1
    ensures GoodRef(y, c.m[c.to[a]].ct) && !InNew(y, c.m[c.to[a]].ct)
    ensures IsPiece(c, c.to[a], y.young[a]) && UnderWay(y, c, open, c.to[a])
  {
    hide InCopying, Fits, InSpaces, Entries;
    SeesCopied(y, c, open, a);
    ScanUnderWay(y, c, open, a);
  }

  lemma FieldsQuiet(y: Before, c: Copy, s: Spaces, table: map<int, int>, promoted: int, p: int, answer: bool)
    requires UnderWayIn(y, c, s, table, promoted, {p}) && p in c.to && p in y.young && Finished(c.src, p, c.to[p], y.young[p])
    requires !answer ==> Quiet(y, c, p, y.young[p])
    ensures !answer ==> NoYoung(y, c.m, c.to[p], y.young[p])
  {
    if !answer {
      QuietDone(y, c, {p}, p);
    }
  }

  lemma NotInFrom(y: Before, c: Copy, s: Spaces, table: map<int, int>, promoted: int, open: set<int>, p: int)
    requires UnderWayIn(y, c, s, table, promoted, open) && GoodRef(y, p) && !InNew(y, p)
    ensures !(if s.forward then s.newStart <= p < s.fromSpace else s.fromSpace <= p < s.newEnd)
  {
    FromInNew(y, c, open, p);
  }

  /** The object on top of the stack is taken up. */
  lemma TakenUp(y: Before, c: Copy, s: Spaces, table: map<int, int>, promoted: int)
    requires UnderWayIn(y, c, s, table, promoted, {}) && c.stack != []
    ensures var a, c' := c.stack[|c.stack| - 1], c.(stack := c.stack[..|c.stack| - 1]);
            && UnderWayIn(y, c', s, table, promoted, {a}) && a in c.to && a in y.young && a in c.stack && a !in c'.stack
            && Unfinished(c.src, c.to[a], y.young[a]) && 0 <= a < |c.m| && c.m[a] == Forward(c.to[a])
            && (Aged(s, a) <==> !IsFresh(y, a))
  {
    hide InCopying, Fits, Entries;
    var a, c' := c.stack[|c.stack| - 1], c.(stack := c.stack[..|c.stack| - 1]);
    PopCopying(y, c);
    SeesCopied(y, c, {}, a);
    FitsSame(y, c, c', s);
    PoppedOnce(y, c, {});
  }

  lemma PoppedOnce(y: Before, c: Copy, open: set<int>)
    requires InCopying(y, c, open) && c.stack != []
    ensures c.stack[|c.stack| - 1] !in c.stack[..|c.stack| - 1]
  {
  }

  /** ... and is done with. */
  lemma DoneWith(y: Before, c: Copy, s: Spaces, table: map<int, int>, promoted: int, a: int)
    requires UnderWayIn(y, c, s, table, promoted, {a}) && a in c.to && a in y.young && Finished(c.src, a, c.to[a], y.young[a])
    requires IsFresh(y, a) || c.to[a] in c.rem || NoYoung(y, c.m, c.to[a], y.young[a])
    ensures UnderWayIn(y, c, s, table, promoted, {}) && c.to.Keys <= y.young.Keys
  {
    hide Fits, Entries, NoYoung, Finished;
    CloseCopying(y, c, a);
    KeysYoung(y, c);
  }

  lemma KeysYoung(y: Before, c: Copy)
    requires Targets(y, c)
    ensures c.to.Keys <= y.young.Keys
  {
    forall a | a in c.to.Keys
      ensures a in y.young.Keys
    {
    }
  }

  // ----- the roots -----

  /** The members not struck out among the first `n`. */
  function Kept(rem: seq<int>, n: nat): seq<int>
    requires n <= |rem|
  {
    if n == 0 then [] else if rem[n - 1] == NIL then Kept(rem, n - 1) else Kept(rem, n - 1) + [rem[n - 1]]
  }

  lemma KeptNone(rem: seq<int>)
    ensures Kept(rem, 0) == []
  {
  }

  lemma {:induction false} KeptHas(rem: seq<int>, n: nat)
    requires n <= |rem|
    ensures forall a :: a in Kept(rem, n) <==> a in rem[..n] && a != NIL
  {
    if n > 0 {
      KeptHas(rem, n - 1);
      assert rem[..n] == rem[..n - 1] + [rem[n - 1]];
    }
  }

  lemma {:induction false} KeptOnce(rem: seq<int>, n: nat)
    requires n <= |rem| && forall i, j :: 0 <= i < j < |rem| && rem[i] != NIL ==> rem[i] != rem[j]
    ensures NoDup(Kept(rem, n))
  {
    if n > 0 {
      KeptOnce(rem, n - 1);
      KeptHas(rem, n - 1);
      assert rem[n - 1] != NIL ==> rem[n - 1] !in rem[..n - 1];
    }
  }

  lemma RemKept(y: Before, c: Copy, s: Spaces, table: map<int, int>, promoted: int)
    requires UnderWayIn(y, c, s, table, promoted, {})
    ensures UnderWayIn(y, c.(rem := Kept(c.rem, |c.rem|)), s, table, promoted, {}) && NIL !in Kept(c.rem, |c.rem|)
  {
    hide Fits, InSpaces, Entries;
    KeptHas(c.rem, |c.rem|);
    KeptOnce(c.rem, |c.rem|);
    assert c.rem[..|c.rem|] == c.rem;
    FitsSame(y, c, c.(rem := Kept(c.rem, |c.rem|)), s);
    RemChanged(y, c, Kept(c.rem, |c.rem|));
  }

  lemma RemChanged(y: Before, c: Copy, rem: seq<int>)
    requires InCopying(y, c, {}) && NoDup(rem)
    requires forall a :: a in rem ==> a in c.rem && a != NIL
    requires forall a :: a in c.rem && a != NIL ==> a in rem
    ensures InCopying(y, c.(rem := rem), {})
  {
    hide Healthy, Shape, FromKept, WordsDone, OldKept, Scanned, Amounts, OnlyReached, NoYoung, Bounds, Targets, Heads, RemSound,
         OldScanned, Noted, Layout;
    HealthyParts(y);
    BoundsOf(y, c);
    var c' := c.(rem := rem);
    ShapeSame(y, c, c');
    RemRest(y, c, c');
    RemHeads(y, c, rem);
    RemNoted(y, c, rem);
    RemStillSound(y, c, rem);
  }

  lemma RemHeads(y: Before, c: Copy, rem: seq<int>)
    requires Bounds(y, c) && Targets(y, c) && Heads(y, c)
    requires forall a :: a in rem ==> a in c.rem && a != NIL
    requires forall a :: a in c.rem && a != NIL ==> a in rem
    ensures Targets(y, c.(rem := rem)) && Heads(y, c.(rem := rem))
  {
    HeadsNil(y, c);
    forall a | a in c.to
      ensures InPlace(y, c.(rem := rem), a)
    {
      assert InPlace(y, c, a);
    }
  }

  lemma RemNoted(y: Before, c: Copy, rem: seq<int>)
    requires Bounds(y, c) && Targets(y, c) && OldScanned(y, c, {}) && Noted(y, c, {})
    requires forall a :: a in rem ==> a in c.rem && a != NIL
    requires forall a :: a in c.rem && a != NIL ==> a in rem
    ensures OldScanned(y, c.(rem := rem), {}) && Noted(y, c.(rem := rem), {})
  {
    hide NoYoung, Finished, Unfinished;
    HeadsNil(y, c);
  }

  lemma RemStillSound(y: Before, c: Copy, rem: seq<int>)
    requires RemSound(y, c) && NoDup(rem)
    requires forall a :: a in rem ==> a in c.rem && a != NIL
    ensures RemSound(y, c.(rem := rem))
  {
    hide IsOld;
    forall i | 0 <= i < |rem|
      ensures rem[i] in c.oldNow && (rem[i] < y.ohi ==> IsOld(y, rem[i]))
    {
      var a := rem[i];
      assert a in rem;
      var j :| 0 <= j < |c.rem| && c.rem[j] == a;
    }
  }

  lemma HeadsNil(y: Before, c: Copy)
    requires Bounds(y, c) && Targets(y, c)
    ensures NIL !in y.olds && forall a :: a in c.to ==> c.to[a] != NIL
  {
    forall a | a in c.to
      ensures c.to[a] != NIL
    {
      assert InPlace(y, c, a);
    }
  }

  lemma RemRest(y: Before, c: Copy, c': Copy)
    requires FromKept(y, c) && WordsDone(y, c) && OldKept(y, c) && Scanned(y, c, {}) && Amounts(y, c) && c' == c.(rem := c'.rem)
    ensures FromKept(y, c') && WordsDone(y, c') && OldKept(y, c') && Scanned(y, c', {}) && Amounts(y, c')
  {
  }

  /** The first `n` roots refer to where their objects are now. */
  ghost predicate RootsMoved(y: Before, c: Copy, roots: seq<int>, n: int) {
    |roots| == |y.roots| && forall i :: 0 <= i < n && i < |roots| ==> roots[i] == Renamed(c.to, y.roots[i]) && Settled(y, c.to, y.roots[i])
  }

  lemma RootsNone(y: Before, c: Copy, roots: seq<int>)
    requires |roots| == |y.roots|
    ensures RootsMoved(y, c, roots, 0)
  {
  }

  lemma RootsNext(y: Before, c: Copy, c': Copy, roots: seq<int>, i: int, new': int)
    requires RootsMoved(y, c, roots, i) && Extends(c, c') && NewTo(y, c, c') && 0 <= i < |roots|
    requires new' == Renamed(c'.to, y.roots[i]) && Settled(y, c'.to, y.roots[i])
    ensures RootsMoved(y, c', roots[i := new'], i + 1)
  {
  }

  lemma NewToIn(y: Before, c: Copy, c': Copy, s: Spaces, table: map<int, int>, promoted: int)
    requires UnderWayIn(y, c', s, table, promoted, {})
    ensures NewTo(y, c, c')
  {
    NewToOf(y, c, c', {});
  }

  lemma RenamedLater(y: Before, c: Copy, c': Copy, r: int)
    requires Extends(c, c') && Settled(y, c.to, r) && NewTo(y, c, c')
    ensures Settled(y, c'.to, r) && Renamed(c'.to, r) == Renamed(c.to, r)
  {
  }

  lemma SettledLater(y: Before, c: Copy, c': Copy, r: int)
    requires Extends(c, c')
    ensures Settled(y, c.to, r) ==> Settled(y, c'.to, r)
  {
  }

  lemma RootGood(y: Before, c: Copy, s: Spaces, table: map<int, int>, promoted: int, i: int)
    requires UnderWayIn(y, c, s, table, promoted, {}) && 0 <= i < |y.roots|
    ensures GoodRef(y, y.roots[i]) && (InNew(y, y.roots[i]) ==> Forced(y, c.to.Keys, y.roots[i]))
  {
    HealthyParts(y);
  }

  lemma TableKeys(y: Before, c: Copy, s: Spaces, table: map<int, int>, promoted: int)
    requires UnderWayIn(y, c, s, table, promoted, {})
    ensures table.Keys == y.table.Keys
  {
  }

  lemma EntryGood(y: Before, c: Copy, s: Spaces, table: map<int, int>, promoted: int, a: int)
    requires UnderWayIn(y, c, s, table, promoted, {}) && a in y.table
    ensures a in table
    ensures (if s.forward then s.newStart <= table[a] < s.fromSpace else s.fromSpace <= table[a] < s.newEnd)
            ==> table[a] == y.table[a] && GoodRef(y, table[a]) && (InNew(y, table[a]) ==> Forced(y, c.to.Keys, table[a]))
    ensures !(if s.forward then s.newStart <= table[a] < s.fromSpace else s.fromSpace <= table[a] < s.newEnd)
            ==> Settled(y, c.to, y.table[a])
  {
    HealthyParts(y);
    BoundsOf(y, c);
    assert GoodRef(y, y.table[a]);
    if y.table[a] in c.to {
      assert InPlace(y, c, y.table[a]);
    }
  }

  lemma EntryNow(y: Before, c: Copy, s: Spaces, table: map<int, int>, promoted: int, a: int)
    requires UnderWayIn(y, c, s, table, promoted, {}) && a in y.table
    ensures a in table && table[a] == Renamed(c.to, y.table[a])
  {
  }

  // ----- a remembered object -----

  /** The words of an old object from 1 to `i` do not refer to the young generation. */
  ghost predicate OldQuiet(y: Before, o: int, i: int) {
    forall k :: o < k < o + i && 0 <= k < |y.m| ==> !InNew(y, RefOf(y.m[k]))
  }

  lemma OldQuietNext(y: Before, o: int, i: int)
    requires OldQuiet(y, o, i) && 0 <= o + i < |y.m| && !InNew(y, RefOf(y.m[o + i]))
    ensures OldQuiet(y, o, i + 1)
  {
  }

  /** A remembered object is taken up. */
  lemma OldTakenUp(y: Before, c: Copy, s: Spaces, table: map<int, int>, promoted: int, o: int)
    requires UnderWayIn(y, c, s, table, promoted, {}) && IsOld(y, o) && o !in c.seen
    ensures UnderWayIn(y, c, s, table, promoted, {o}) && o in y.olds && Unfinished(c.src, o, y.olds[o])
    ensures 0 <= o < |c.m| && c.m[o].Head? && c.m[o].size == y.olds[o] >= 1
    ensures GoodRef(y, c.m[o].ct) && !InNew(y, c.m[o].ct) && OldQuiet(y, o, 1)
  {
    hide InCopying, Fits, Entries, InSpaces, Unfinished;
    OpenOld(y, c, o);
    SeesOld(y, c, {}, o);
  }

  lemma OldBeforeWord(y: Before, c: Copy, s: Spaces, table: map<int, int>, promoted: int, o: int, i: int)
    requires UnderWayIn(y, c, s, table, promoted, {o}) && IsOld(y, o) && o in y.rem && o !in c.seen && 1 <= i < y.olds[o]
    requires Scanning(c, o, o, y.olds[o], i)
    ensures 0 <= o + i < |c.m| == |y.m| && c.m[o + i] == y.m[o + i] && IsField(y.m[o + i]) && GoodRef(y, RefOf(y.m[o + i]))
    ensures o + i !in c.src && IsPiece(c, o, y.olds[o]) && UnderWay(y, c, {o}, o)
    ensures InNew(y, RefOf(y.m[o + i])) ==> Forced(y, c.to.Keys, RefOf(y.m[o + i]))
  {
    hide InCopying, Fits, InSpaces, Entries, Forced;
    SeesOld(y, c, {o}, o);
    OldUnderWay(y, c, {o}, o);
    OldForced(y, c.to.Keys, o, o + i);
  }

  lemma OldDone(y: Before, c: Copy, s: Spaces, table: map<int, int>, promoted: int, o: int)
    requires UnderWayIn(y, c, s, table, promoted, {o}) && o in y.olds && o in c.rem && Finished(c.src, o, o, y.olds[o])
    ensures UnderWayIn(y, c.(seen := c.seen + {o}), s, table, promoted, {})
  {
    hide InCopying, Fits, Entries, Finished;
    CloseOld(y, c, o);
    FitsSame(y, c, c.(seen := c.seen + {o}), s);
  }

  lemma OldQuietDone(y: Before, c: Copy, s: Spaces, table: map<int, int>, promoted: int, open: set<int>, o: int)
    requires UnderWayIn(y, c, s, table, promoted, open) && IsOld(y, o) && OldQuiet(y, o, y.olds[o])
    ensures NoYoung(y, y.m, o, y.olds[o])
  {
    hide InCopying, Fits, Entries, InSpaces, GoodRef;
    SeesOld(y, c, open, o);
  }

  lemma OldForgotten(y: Before, c: Copy, s: Spaces, table: map<int, int>, promoted: int, i: int)
    requires UnderWayIn(y, c, s, table, promoted, {}) && 0 <= i < |c.rem| && c.rem[i] != NIL && c.rem[i] in y.olds && c.rem[i] in c.seen
    requires NoYoung(y, y.m, c.rem[i], y.olds[c.rem[i]])
    ensures 0 <= c.rem[i] < |c.m| && c.m[c.rem[i]].Head? && UnderWayIn(y, Forget(c, i), s, table, promoted, {})
  {
    hide InCopying, Fits, Entries, InSpaces, NoYoung;
    ForgetCopying(y, c, {}, i);
    FitsSame(y, c, Forget(c, i), s);
  }

  lemma RememberedOld(y: Before, c: Copy, s: Spaces, table: map<int, int>, promoted: int, open: set<int>)
    requires UnderWayIn(y, c, s, table, promoted, open)
    ensures forall a :: a in y.rem ==> IsOld(y, a) && a != NIL && a in y.olds
    ensures NoDup(y.rem)
  {
    HealthyParts(y);
  }

  /** A promoted object's flags word tells whether it is remembered. */
  lemma PromotedHead(y: Before, c: Copy, s: Spaces, table: map<int, int>, promoted: int, a: int)
    requires UnderWayIn(y, c, s, table, promoted, {a}) && a in c.to && Aged(s, a)
    ensures 0 <= c.to[a] < |c.m| && c.m[c.to[a]].Head? && (c.m[c.to[a]].mark <==> c.to[a] in c.rem)
    ensures c.to[a] in c.oldNow && c.to[a] >= y.ohi
  {
    SeesCopied(y, c, {a}, a);
    HealthyParts(y);
    BoundsOf(y, c);
    TargetHead(y, c, c.to[a]);
  }

  lemma PromotedRemember(y: Before, c: Copy, s: Spaces, table: map<int, int>, promoted: int, a: int)
    requires UnderWayIn(y, c, s, table, promoted, {a}) && a in c.to && c.to[a] in c.oldNow && c.to[a] >= y.ohi && c.to[a] !in c.rem
    ensures 0 <= c.to[a] < |c.m| && c.m[c.to[a]].Head?
    ensures UnderWayIn(y, Remember(c, c.to[a]), s, table, promoted, {a}) && Extends(c, Remember(c, c.to[a]))
  {
    hide InCopying, Fits, Entries, InSpaces;
    RememberCopying(y, c, {a}, c.to[a]);
    FitsSame(y, c, Remember(c, c.to[a]), s);
  }

  // ----- what is remembered afterwards -----

  /** A field of young object `a` names a fresh one. */
  ghost predicate NamesFresh(y: Before, a: int) {
    a in y.young && exists k :: a < k < a + y.young[a] && 0 <= k < |y.m| && InNew(y, RefOf(y.m[k])) && IsFresh(y, RefOf(y.m[k]))
  }

  /** `r` is where an object has been promoted to that names a fresh one. */
  ghost predicate Earned(y: Before, to: map<int, int>, r: int) {
    exists a :: a in to && to[a] == r && !IsFresh(y, a) && NamesFresh(y, a)
  }

  /** The new members are such objects. */
  ghost predicate Appended(y: Before, to: map<int, int>, rem: seq<int>, rem': seq<int>) {
    |rem| <= |rem'| && forall j :: |rem| <= j < |rem'| ==> Earned(y, to, rem'[j])
  }

  lemma AppendedNone(y: Before, to: map<int, int>, rem: seq<int>)
    ensures Appended(y, to, rem, rem)
  {
  }

  lemma AppendedOne(y: Before, to: map<int, int>, rem: seq<int>, a: int)
    requires a in to && !IsFresh(y, a) && NamesFresh(y, a)
    ensures Appended(y, to, rem, rem + [to[a]])
  {
    assert Earned(y, to, to[a]);
  }

  lemma EarnedMore(y: Before, c: Copy, c': Copy, r: int)
    requires Extends(c, c') && Earned(y, c.to, r)
    ensures Earned(y, c'.to, r)
  {
    var a :| a in c.to && c.to[a] == r && !IsFresh(y, a) && NamesFresh(y, a);
    assert a in c'.to && c'.to[a] == r;
  }

  lemma AppendedTrans(y: Before, rem: seq<int>, c: Copy, c': Copy)
    requires Appended(y, c.to, rem, c.rem) && Extends(c, c') && Appended(y, c'.to, c.rem, c'.rem)
    ensures Appended(y, c'.to, rem, c'.rem)
  {
    hide Earned;
    forall j | |rem| <= j < |c'.rem|
      ensures Earned(y, c'.to, c'.rem[j])
    {
      if j < |c.rem| {
        assert c'.rem[j] == c'.rem[..|c.rem|][j] == c.rem[j];
        EarnedMore(y, c, c', c.rem[j]);
      }
    }
  }

  /** A remembered object that names nothing young is struck out. */
  ghost function Struck(y: Before, o: int): int {
    if o in y.olds && !NoYoung(y, y.m, o, y.olds[o]) then o else NIL
  }

  /** The first `i` remembered objects have been gone through. */
  ghost predicate GoneThrough(y: Before, to: map<int, int>, rem: seq<int>, i: int) {
    && 0 <= i <= |y.rem| <= |rem|
    && (forall j :: 0 <= j < i ==> rem[j] == Struck(y, y.rem[j]))
    && (forall j :: i <= j < |y.rem| ==> rem[j] == y.rem[j])
    && Appended(y, to, y.rem, rem)
  }

  lemma StruckNone(y: Before, to: map<int, int>)
    ensures GoneThrough(y, to, y.rem, 0)
  {
  }

  lemma StruckNext(y: Before, rem: seq<int>, c: Copy, c': Copy, i: int)
    requires GoneThrough(y, c.to, c.rem, i) && i < |y.rem| && Extends(c, c') && Appended(y, c'.to, c.rem, c'.rem)
    requires rem == c'.rem[i := Struck(y, y.rem[i])]
    ensures GoneThrough(y, c'.to, rem, i + 1)
  {
    hide Earned, Struck;
    AppendedTrans(y, y.rem, c, c');
    forall j | 0 <= j < |c.rem|
      ensures c'.rem[j] == c.rem[j]
    {
      assert c'.rem[j] == c'.rem[..|c.rem|][j];
    }
  }

  /** Just those remembered objects are left that name something young, and no
      others have come than promoted ones that name a fresh object. */
  ghost predicate RememberedExactly(y: Before, to: map<int, int>, rem: seq<int>) {
    && (forall r :: r in rem && r != NIL ==> (r in y.rem && Struck(y, r) == r) || Earned(y, to, r))
    && (forall r :: r in y.rem && Struck(y, r) == r ==> r in rem)
  }

  lemma StruckExactly(y: Before, to: map<int, int>, rem: seq<int>)
    requires GoneThrough(y, to, rem, |y.rem|)
    ensures RememberedExactly(y, to, rem)
  {
    hide Earned, Struck;
    forall r | r in rem && r != NIL
      ensures (r in y.rem && Struck(y, r) == r) || Earned(y, to, r)
    {
      var j :| 0 <= j < |rem| && rem[j] == r;
      if j < |y.rem| {
        StruckSame(y, y.rem[j]);
        assert y.rem[j] in y.rem;
      }
    }
    forall r | r in y.rem && Struck(y, r) == r
      ensures r in rem
    {
      var j :| 0 <= j < |y.rem| && y.rem[j] == r;
      assert rem[j] == r;
    }
  }

  lemma StruckSame(y: Before, o: int)
    ensures Struck(y, o) == o || Struck(y, o) == NIL
  {
  }

  lemma KeptExactly(y: Before, to: map<int, int>, rem: seq<int>)
    requires RememberedExactly(y, to, rem) && NIL !in y.rem
    ensures RememberedExactly(y, to, Kept(rem, |rem|))
  {
    hide Earned, Struck;
    KeptHas(rem, |rem|);
    assert rem[..|rem|] == rem;
  }

  lemma AppendedExactly(y: Before, c: Copy, c': Copy)
    requires RememberedExactly(y, c.to, c.rem) && Extends(c, c') && Appended(y, c'.to, c.rem, c'.rem)
    ensures RememberedExactly(y, c'.to, c'.rem)
  {
    hide Earned, Struck;
    forall r | r in c'.rem && r != NIL
      ensures (r in y.rem && Struck(y, r) == r) || Earned(y, c'.to, r)
    {
      var j :| 0 <= j < |c'.rem| && c'.rem[j] == r;
      if j < |c.rem| {
        assert c.rem[j] == c'.rem[..|c.rem|][j] && c.rem[j] in c.rem;
        if Earned(y, c.to, r) {
          EarnedMore(y, c, c', r);
        }
      }
    }
    forall r | r in c.rem
      ensures r in c'.rem
    {
      assert c'.rem == c'.rem[..|c.rem|] + c'.rem[|c.rem|..];
    }
  }

  /** Word by word: a remembered object stays in the set exactly if one of its
      fields named a young object. */
  lemma StaysRemembered(y: Before, v: Before, to: map<int, int>, o: int)
    requires Survival.YoungDone(y, v, to) && RememberedExactly(y, to, v.rem) && o in y.rem
    ensures o in y.olds
    ensures o in v.rem <==> exists k :: o < k < o + y.olds[o] && 0 <= k < |y.m| && y.m[k].Ref? && y.nlo <= y.m[k].target < y.nhi
  {
    hide Relocated, Reached, Healthy, Earned;
    OldNames(y, o);
    StillThere(y, v, to, o);
  }

  lemma OldNames(y: Before, o: int)
    requires Healthy(y) && o in y.rem
    ensures o in y.olds && o != NIL
    ensures Struck(y, o) == o <==> exists k :: o < k < o + y.olds[o] && 0 <= k < |y.m| && y.m[k].Ref? && y.nlo <= y.m[k].target < y.nhi
  {
    hide Healthy, GoodRef;
    OldGood(y, o);
    var n := y.olds[o];
    if !NoYoung(y, y.m, o, n) {
      var k :| o <= k < o + n && 0 <= k < |y.m| && InNew(y, RefOf(y.m[k]));
      assert y.m[k].Ref? && y.nlo <= y.m[k].target < y.nhi;
    } else {
      forall k | o < k < o + n && 0 <= k < |y.m| && y.m[k].Ref?
        ensures !(y.nlo <= y.m[k].target < y.nhi)
      {
        assert RefOf(y.m[k]) == y.m[k].target && !InNew(y, RefOf(y.m[k]));
      }
    }
  }

  lemma OldGood(y: Before, o: int)
    requires Healthy(y) && o in y.rem
    ensures o in y.olds && o != NIL && GoodWords(y, o, y.olds[o]) && 0 <= y.nlo
  {
    hide GoodWords;
    HealthyParts(y);
    assert IsOld(y, o);
  }

  lemma StillThere(y: Before, v: Before, to: map<int, int>, o: int)
    requires Healthy(y) && Relocated(y, v, to) && RememberedExactly(y, to, v.rem) && o in y.rem && o in y.olds && o != NIL
    ensures o in v.rem <==> Struck(y, o) == o
  {
    hide Healthy, Relocated, Earned;
    if o in v.rem && Struck(y, o) != o {
      EarnedWhere(y, v, to, o);
    }
  }

  lemma EarnedWhere(y: Before, v: Before, to: map<int, int>, r: int)
    requires Healthy(y) && Relocated(y, v, to) && Earned(y, to, r)
    ensures r !in y.olds
  {
    HealthyParts(y);
    var a :| a in to && to[a] == r && !IsFresh(y, a) && NamesFresh(y, a);
    assert CopyDone.Carried(y, v, to, a);
  }

  /** And a promoted one is in the set exactly if one of its fields names an
      object that has stayed young; `low` and `mid` say which do. */
  lemma PromotedRemembered(y: Before, v: Before, to: map<int, int>, a: int)
    requires Survival.YoungDone(y, v, to) && RememberedExactly(y, to, v.rem) && a in to && if y.low then a >= y.mid else a < y.mid
    ensures a in y.young
    ensures to[a] in v.rem <==> exists k :: a < k < a + y.young[a] && 0 <= k < |y.m| && y.m[k].Ref? && y.nlo <= y.m[k].target < y.nhi
                                            && if y.low then y.m[k].target < y.mid else y.m[k].target >= y.mid
  {
    hide Relocated, Reached, Healthy;
    CarriedOut(y, v, to, a);
    if to[a] in v.rem {
      PromotedEarned(y, v, to, a);
    } else if k :| a < k < a + y.young[a] && 0 <= k < |y.m| && y.m[k].Ref? && y.nlo <= y.m[k].target < y.nhi
                   && if y.low then y.m[k].target < y.mid else y.m[k].target >= y.mid {
      PromotedNoted(y, v, to, a, k);
    }
  }

  lemma CarriedOut(y: Before, v: Before, to: map<int, int>, a: int)
    requires Relocated(y, v, to) && a in to
    ensures CopyDone.Carried(y, v, to, a)
  {
  }

  lemma PromotedEarned(y: Before, v: Before, to: map<int, int>, a: int)
    requires Survival.YoungDone(y, v, to) && RememberedExactly(y, to, v.rem) && a in to && !IsFresh(y, a) && to[a] in v.rem
    ensures exists k :: a < k < a + y.young[a] && 0 <= k < |y.m| && y.m[k].Ref? && y.nlo <= y.m[k].target < y.nhi
                        && if y.low then y.m[k].target < y.mid else y.m[k].target >= y.mid
  {
    hide Reached, Relocated, Healthy;
    EarnedHere(y, v, to, a);
    var k :| a < k < a + y.young[a] && 0 <= k < |y.m| && InNew(y, RefOf(y.m[k])) && IsFresh(y, RefOf(y.m[k]));
    FieldWord(y, a, k);
  }

  lemma EarnedHere(y: Before, v: Before, to: map<int, int>, a: int)
    requires Healthy(y) && Relocated(y, v, to) && RememberedExactly(y, to, v.rem) && a in to && !IsFresh(y, a) && to[a] in v.rem
    ensures NamesFresh(y, a)
  {
    hide NamesFresh;
    HealthyParts(y);
    CarriedOut(y, v, to, a);
    hide Healthy, ObjectsGood, RootsGood;
    assert to[a] !in y.olds && to[a] != NIL;
    assert to[a] !in y.rem by {
      assert to[a] in y.rem ==> IsOld(y, to[a]);
    }
    var b :| b in to && to[b] == to[a] && !IsFresh(y, b) && NamesFresh(y, b);
    assert a == b;
  }

  lemma FieldWord(y: Before, a: int, k: int)
    requires Healthy(y) && a in y.young && a < k < a + y.young[a] && 0 <= k < |y.m| && InNew(y, RefOf(y.m[k]))
    ensures y.m[k].Ref?
  {
    YoungRange(y, a);
    HealthyParts(y);
  }

  lemma PromotedNoted(y: Before, v: Before, to: map<int, int>, a: int, k: int)
    requires Survival.YoungDone(y, v, to) && a in to && !IsFresh(y, a)
    requires a in y.young && a < k < a + y.young[a] && 0 <= k < |y.m| && y.m[k].Ref? && InNew(y, y.m[k].target) && IsFresh(y, y.m[k].target)
    ensures to[a] in v.rem
  {
    hide Healthy, Relocated, Reached;
    var r, t := y.m[k].target, to[a];
    NamedKept(y, v, to, a, k, r);
    NamedMoved(y, v, to, a, k, r);
    NowRemembered(v, t, k - a + t);
  }

  lemma NamedKept(y: Before, v: Before, to: map<int, int>, a: int, k: int, r: int)
    requires Survival.YoungDone(y, v, to) && a in to && a in y.young && a < k < a + y.young[a] && 0 <= k < |y.m|
    requires y.m[k] == Ref(r) && InNew(y, r)
    ensures r in to
  {
    hide Relocated, Healthy, Reached;
    Survival.ReachedClosed(y, to);
    assert a in to.Keys && HoldsWords(y, to.Keys, a, y.young[a]);
    assert RefOf(y.m[k]) == r && r in to.Keys;
  }

  lemma NamedMoved(y: Before, v: Before, to: map<int, int>, a: int, k: int, r: int)
    requires Survival.YoungDone(y, v, to) && a in to && r in to && a in y.young && !IsFresh(y, a) && IsFresh(y, r)
    requires a < k < a + y.young[a] && 0 <= k < |y.m| && y.m[k] == Ref(r)
    ensures var t, j := to[a], k - a + to[a];
            IsOld(v, t) && t < j < t + v.olds[t] && 0 <= j < |v.m| && v.m[j] == Ref(to[r]) && InNew(v, to[r])
  {
    hide Reached, Healthy;
    YoungRange(y, a);
    CarriedOut(y, v, to, a);
    CarriedOut(y, v, to, r);
    var j := k - a + to[a];
    assert v.m[j] == MapWord(to, y.m[j - to[a] + a]);
    YoungIn(v, to[r]);
  }

  lemma NowRemembered(v: Before, t: int, j: int)
    requires Healthy(v) && IsOld(v, t) && t < j < t + v.olds[t] && 0 <= j < |v.m| && v.m[j].Ref? && InNew(v, v.m[j].target)
    ensures t in v.rem
  {
    HealthyParts(v);
    assert RefOf(v.m[j]) == v.m[j].target;
    assert !NoYoung(v, v.m, t, v.olds[t]);
  }

  lemma YoungIn(v: Before, a: int)
    requires Healthy(v) && a in v.young
    ensures InNew(v, a)
  {
    YoungRange(v, a);
    HealthyParts(v);
  }

  /** Nothing else is in the set. */
  lemma NoOthersRemembered(y: Before, v: Before, to: map<int, int>, r: int) returns (a: int)
    requires Survival.YoungDone(y, v, to) && RememberedExactly(y, to, v.rem) && r in v.rem
    ensures r !in y.rem ==> a in to && to[a] == r && if y.low then a >= y.mid else a < y.mid
  {
    hide Reached, Relocated;
    HealthyParts(v);
    a := 0;
    if r !in y.rem {
      assert IsOld(v, r);
      a :| a in to && to[a] == r && !IsFresh(y, a) && NamesFresh(y, a);
    }
  }

  /** A place in to-space is that of a fresh object. */
  lemma LoudFresh(y: Before, c: Copy, s: Spaces, table: map<int, int>, promoted: int, open: set<int>, r: int)
    requires UnderWayIn(y, c, s, table, promoted, open) && Settled(y, c.to, r) && InNew(y, r)
    requires s.newStart <= Renamed(c.to, r) < s.newEnd
    ensures IsFresh(y, r)
  {
    HealthyParts(y);
    BoundsOf(y, c);
    assert r in y.young && InPlace(y, c, r);
  }

  lemma LoudWord(y: Before, c: Copy, s: Spaces, table: map<int, int>, promoted: int, open: set<int>, a: int, i: int, w: Word)
    requires UnderWayIn(y, c, s, table, promoted, open) && a in y.young && 1 <= i < y.young[a] && 0 <= a + i < |y.m|
    requires w == MapWord(c.to, y.m[a + i]) && Settled(y, c.to, RefOf(y.m[a + i]))
    requires InNew(y, RefOf(y.m[a + i])) && s.newStart <= RefOf(w) < s.newEnd
    ensures NamesFresh(y, a)
  {
    hide UnderWayIn, InNew, IsFresh, NamesFresh, Settled;
    NilNotTo(y, c, s, table, promoted, open);
    ImageRef(c.to, y.m[a + i]);
    LoudFresh(y, c, s, table, promoted, open, RefOf(y.m[a + i]));
    Names(y, a, i);
  }

  lemma NilNotTo(y: Before, c: Copy, s: Spaces, table: map<int, int>, promoted: int, open: set<int>)
    requires UnderWayIn(y, c, s, table, promoted, open)
    ensures NIL !in c.to
  {
    hide Fits, InSpaces, Entries;
    NilStays(y, c, open);
  }

  lemma AgedNotFresh(y: Before, c: Copy, s: Spaces, table: map<int, int>, promoted: int, open: set<int>, a: int)
    requires UnderWayIn(y, c, s, table, promoted, open) && a in y.young && Aged(s, a)
    ensures !IsFresh(y, a)
  {
  }

  lemma Names(y: Before, a: int, i: int)
    requires a in y.young && 1 <= i < y.young[a] && 0 <= a + i < |y.m| && InNew(y, RefOf(y.m[a + i])) && IsFresh(y, RefOf(y.m[a + i]))
    ensures NamesFresh(y, a)
  {
    var k := a + i;
    assert InNew(y, RefOf(y.m[k]));
  }

  lemma NamesYoung(y: Before, o: int, i: int, n: int)
    requires 0 < i < n && 0 <= o + i < |y.m| && InNew(y, RefOf(y.m[o + i]))
    ensures !NoYoung(y, y.m, o, n)
  {
    var k := o + i;
    assert InNew(y, RefOf(y.m[k]));
  }

  // ----- between collections -----

  /** The allowance: how many words have been and may still be allocated before
      the next collection.  `n` words make up the new space, `s` are survivors,
      `w` fresh and `left` left; `per` is the size of a generation. */
  predicate Allowance(n: int, s: int, w: int, left: int, per: int, guarantee: bool) {
    && n == 4 * per && per >= 1 && left >= 0 && s >= 0 && w >= 0
    && (if guarantee then w + left == per && s <= per
        else w + left == (n + s) / 2 - s && s <= 2 * per)
  }

  /** Whatever is fresh fits into to-space, which is free. */
  lemma AllowanceFits(n: int, s: int, w: int, left: int, per: int, guarantee: bool)
    requires Allowance(n, s, w, left, per, guarantee)
    ensures s + w + w <= n && s + w + left <= n
  {
  }

  /** After a collection that found `s'` fresh words live there is room for a
      generation again. */
  lemma AllowanceNext(n: int, s: int, w: int, left: int, per: int, guarantee: bool, s': int)
    requires Allowance(n, s, w, left, per, guarantee) && 0 <= s' <= w
    ensures var left' := if guarantee then per else (n + s') / 2 - s';
            Allowance(n, s', 0, left', per, guarantee) && left' >= per
  {
  }

  /** Allocation moves words from what is left to what is fresh. */
  lemma AllowanceSpent(n: int, s: int, w: int, left: int, per: int, guarantee: bool, lw: int)
    requires Allowance(n, s, w, left, per, guarantee) && 0 <= lw <= left
    ensures Allowance(n, s, w + lw, left - lw, per, guarantee)
  {
  }

  /** The state in which a collection begins. */
  lemma BeginCopying(y: Before, t: int)
    requires Healthy(y) && y.nlo <= t <= y.nhi && (t <= y.flo || y.fhi <= t)
    ensures InCopying(y, Copy(y.m, map[], map[], y.olds, map[], y.ohi, t, t, y.rem, [], {}), {})
  {
    var c := Copy(y.m, map[], map[], y.olds, map[], y.ohi, t, t, y.rem, [], {});
    BeginShape(y, c, t);
    BeginHeads(y, c, t);
    BeginScans(y, c, t);
    BeginAmounts(y, c, t);
    hide Healthy, Shape, Heads, RemSound, Targets, FromKept, OldKept, WordsDone, Scanned, OldScanned, Noted, Amounts, OnlyReached;
  }

  lemma BeginScans(y: Before, c: Copy, t: int)
    requires c == Copy(y.m, map[], map[], y.olds, map[], y.ohi, t, t, y.rem, [], {})
    ensures WordsDone(y, c) && Scanned(y, c, {}) && OldScanned(y, c, {}) && Noted(y, c, {})
  {
  }

  lemma BeginAmounts(y: Before, c: Copy, t: int)
    requires c == Copy(y.m, map[], map[], y.olds, map[], y.ohi, t, t, y.rem, [], {})
    ensures Amounts(y, c) && OnlyReached(y, c.to)
  {
    LiveNone(y.young, y.flo, y.fhi, 0);
    assert FreshOf(y, c.to) == {} && AgedOf(y, c.to) == {};
  }

  lemma BeginShape(y: Before, c: Copy, t: int)
    requires Healthy(y) && y.nlo <= t <= y.nhi && (t <= y.flo || y.fhi <= t)
    requires c == Copy(y.m, map[], map[], y.olds, map[], y.ohi, t, t, y.rem, [], {})
    ensures Shape(y, c) && Targets(y, c) && FromKept(y, c) && OldKept(y, c)
  {
    HealthyParts(y);
    assert forall a :: a in y.olds ==> a < y.ohi;
  }

  lemma BeginHeads(y: Before, c: Copy, t: int)
    requires Healthy(y)
    requires c == Copy(y.m, map[], map[], y.olds, map[], y.ohi, t, t, y.rem, [], {})
    ensures Heads(y, c) && RemSound(y, c)
  {
    HealthyParts(y);
    forall i | 0 <= i < |c.rem|
      ensures IsOld(y, c.rem[i])
    {
      assert c.rem[i] in y.rem;
    }
  }

  lemma BeginUnderWay(y: Before, c: Copy, s: Spaces, left: int, per: int, guarantee: bool)
    requires Healthy(y) && y.nlo == s.newStart && y.nhi == s.newEnd && y.olo == s.oldStart && y.olimit == s.oldEnd && y.low == !s.forward
    requires if s.forward then y.flo == y.nlo && y.fhi == s.fromSpace && y.mid == s.survivorsEnd && s.survivorsStart == y.nlo && s.toSpace == y.nhi
             else y.flo == s.fromSpace && y.fhi == y.nhi && y.mid == s.survivorsStart && s.survivorsEnd == y.nhi && s.toSpace == y.nlo
    requires Allowance(y.nhi - y.nlo, SurvivorWords(y), FreshWords(y), left, per, guarantee) && y.ohi + SurvivorWords(y) <= y.olimit
    requires c == Copy(y.m, map[], map[], y.olds, map[], y.ohi, s.toSpace, s.toSpace, y.rem, [], {})
    ensures UnderWayIn(y, c, s, y.table, 0, {})
  {
    hide InCopying, Fits, InSpaces, Healthy, Entries;
    BeginBounds(y);
    AllowanceFits(y.nhi - y.nlo, SurvivorWords(y), FreshWords(y), left, per, guarantee);
    BeginFits(y, c, s);
    BeginCopying(y, s.toSpace);
    BeginEntries(y);
  }

  lemma BeginEntries(y: Before)
    ensures Entries(y, map[]) == y.table
  {
    assert forall a :: a in y.table ==> Entries(y, map[])[a] == y.table[a];
  }

  lemma BeginBounds(y: Before)
    requires Healthy(y)
    ensures 1 <= y.olo <= y.ohi <= y.olimit <= y.nlo <= y.flo <= y.mid <= y.fhi <= y.nhi <= |y.m|
    ensures forall a :: a in y.young ==> y.flo <= a < y.fhi
  {
    HealthyParts(y);
  }

  lemma BeginFits(y: Before, c: Copy, s: Spaces)
    requires y.nlo == s.newStart && y.nhi == s.newEnd && y.olo == s.oldStart && y.olimit == s.oldEnd && y.low == !s.forward
    requires if s.forward then y.flo == y.nlo && y.fhi == s.fromSpace && y.mid == s.survivorsEnd && s.survivorsStart == y.nlo && s.toSpace == y.nhi
             else y.flo == s.fromSpace && y.fhi == y.nhi && y.mid == s.survivorsStart && s.survivorsEnd == y.nhi && s.toSpace == y.nlo
    requires SurvivorWords(y) + 2 * FreshWords(y) <= y.nhi - y.nlo && y.ohi + SurvivorWords(y) <= y.olimit
    requires y.nlo <= y.flo <= y.mid <= y.fhi <= y.nhi && forall a :: a in y.young ==> y.flo <= a < y.fhi
    requires c.tlo == c.thi == s.toSpace
    ensures Fits(y, c, !s.forward) && InSpaces(y, c, s) && y.nlo <= s.toSpace <= y.nhi && (s.toSpace <= y.flo || y.fhi <= s.toSpace)
  {
  }

  /** Everything has been copied. */
  lemma EndUnderWay(y: Before, c: Copy, s: Spaces, table: map<int, int>, promoted: int, roots: seq<int>)
    requires UnderWayIn(y, c, s, table, promoted, {}) && c.stack == [] && NIL !in c.rem
    requires forall a :: a in y.rem ==> a in c.seen
    requires RootsMoved(y, c, roots, |roots|) && forall a :: a in y.table ==> Settled(y, c.to, y.table[a])
    ensures AllDone(y, c) && InSpaces(y, c, s) && promoted == c.thi - c.tlo && table == Entries(y, c.to) && Fits(y, c, !s.forward)
    ensures roots == RenamedRoots(y, c.to)
    ensures c.thi - c.tlo <= FreshWords(y) && c.ng - y.ohi <= SurvivorWords(y) && 0 <= c.thi - c.tlo
  {
    HealthyParts(y);
    AmountsFit(y, c);
  }

  lemma RootsExtend(y: Before, c: Copy, c': Copy, roots: seq<int>)
    requires RootsMoved(y, c, roots, |roots|) && Extends(c, c') && NewTo(y, c, c')
    ensures RootsMoved(y, c', roots, |roots|)
  {
  }

  lemma NoNilAdded(c: Copy, c': Copy)
    requires Extends(c, c') && NIL !in c.rem
    ensures NIL !in c'.rem
  {
  }

  class NewSpace {
    const elder: Compactor.OldSpace
    const newStart: int
    const newEnd: int
    const roots: array<int>
    const wordsPerGeneration: int
    const guaranteeInterGcInterval: bool

    var nGCs: nat
    var allocatingForward: bool
    var fromSpace: int
    var toSpace: int
    var survivorsStart: int
    var survivorsEnd: int
    var wordsLeft: int
    var wordsToBePromoted: int
    var moveStack: seq<int>
    var table: map<int, int>  // the object of each identifier
    var slots: seq<int>       // the identifiers in the used slots of the object table

    ghost var young: map<int, int>  // the sizes of the young objects
    ghost var olds: map<int, int>   // and of the old ones
    ghost var y: Before       // the heap before the collection
    ghost var to: map<int, int>
    ghost var src: map<int, int>
    ghost var oldNow: map<int, int>
    ghost var newNow: map<int, int>
    ghost var tlo: int
    ghost var thi: int
    ghost var seen: set<int>

    /** gc_init: both generations are empty. */
    constructor (elder: Compactor.OldSpace, newStart: int, newEnd: int, roots: array<int>, wordsPerGeneration: int, guarantee: bool)
      requires 1 <= elder.oldStart == elder.nextGen <= elder.oldEnd <= newStart && newEnd <= elder.mem.Length < SizeTable.TERMINATOR
      requires wordsPerGeneration >= 1 && newEnd - newStart == 4 * wordsPerGeneration
      requires elder.remSet == [] && forall i :: 0 <= i < roots.Length ==> roots[i] == NIL
      ensures Valid() && this.elder == elder && this.roots == roots && table == map[] && young == olds == map[]
    {
      this.elder, this.newStart, this.newEnd, this.roots := elder, newStart, newEnd, roots;
      this.wordsPerGeneration, guaranteeInterGcInterval, nGCs := wordsPerGeneration, guarantee, 0;
      allocatingForward, fromSpace, toSpace, survivorsStart, survivorsEnd := true, newStart, newEnd, newStart, newStart;
      wordsLeft := if guarantee then wordsPerGeneration else (newEnd - newStart) / 2;
      wordsToBePromoted, moveStack, table, slots := 0, [], map[], [];
      young, olds := map[], map[];
      to, src, oldNow, newNow, tlo, thi, seen := map[], map[], map[], map[], newEnd, newEnd, {};
    }

    /** The heap between collections. */
    ghost function State(): Before
      reads this, elder, elder.mem, roots
    {
      Before(elder.mem[..], young, olds,
             if allocatingForward then newStart else fromSpace, if allocatingForward then fromSpace else newEnd,
             if allocatingForward then survivorsEnd else survivorsStart, !allocatingForward,
             elder.oldStart, elder.nextGen, elder.oldEnd, newStart, newEnd, roots[..], table, elder.remSet)
    }

    /** Between collections, but for the room to promote. */
    ghost predicate Between()
      reads this, elder, elder.mem, roots
    {
      && Healthy(State()) && Slotted() && moveStack == [] && elder.mem.Length < SizeTable.TERMINATOR
      && (if allocatingForward then survivorsStart == newStart && toSpace == newEnd else survivorsEnd == newEnd && toSpace == newStart)
      && wordsToBePromoted == SurvivorWords(State())
      && Allowance(newEnd - newStart, wordsToBePromoted, FreshWords(State()), wordsLeft, wordsPerGeneration, guaranteeInterGcInterval)
    }

    /** The survivors will find room in the old generation. */
    ghost predicate Valid()
      reads this, elder, elder.mem, roots
    {
      Between() && elder.oldEnd - elder.nextGen >= wordsToBePromoted
    }

    ghost predicate Slotted()
      reads this
    {
      forall a :: a in table ==> a in slots
    }

    /** The collection as it stands. */
    ghost function Now(): Copy
      reads this, elder, elder.mem
    {
      Copy(elder.mem[..], to, src, oldNow, newNow, elder.nextGen, tlo, thi, elder.remSet, moveStack, seen)
    }

    ghost function Where(): Spaces
      reads this
    {
      Spaces(allocatingForward, fromSpace, toSpace, survivorsStart, survivorsEnd, newStart, newEnd, elder.oldStart, elder.oldEnd)
    }

    ghost predicate Collecting(open: set<int>)
      reads this, elder, elder.mem
    {
      UnderWayIn(y, Now(), Where(), table, wordsToBePromoted, open)
    }

    /** What steps of a collection may change, and how. */
    twostate predicate Proceeds()
      reads this, elder, elder.mem
    {
      y == old(y) && Extends(old(Now()), Now()) && SameSides(old(Where()), Where())
    }

    /** get_new_addr_in_new: the assertion there never fails. */
    method NewAddrInNew(size: int) returns (addr: int)
      requires if allocatingForward then toSpace - size >= fromSpace else toSpace + size <= fromSpace
      modifies this`toSpace
      ensures addr == if allocatingForward then old(toSpace) - size else old(toSpace)
      ensures toSpace == if allocatingForward then addr else addr + size
    {
      if allocatingForward {
        toSpace := toSpace - size;
        addr := toSpace;
        assert toSpace >= fromSpace;
      } else {
        addr := toSpace;
        toSpace := toSpace + size;
        assert toSpace <= fromSpace;
      }
    }

    method NewAddrInOld(size: int) returns (addr: int)
      modifies elder`nextGen
      ensures addr == old(elder.nextGen) && elder.nextGen == addr + size
    {
      addr := elder.nextGen;
      elder.nextGen := elder.nextGen + size;
    }

    /** UpdateObjectLocation: the identifier of an object that has one. */
    method UpdateObjectLocation(o: int, new': int)
      requires Distinct(table) && ObjectTable.CanReaddress(table, o, new')
      modifies this`table
      ensures table == ObjectTable.Readdressed(old(table), o, new')
    {
      ghost var before := table;
      if a :| a in table && table[a] == o {
        table := table[a := new'];
      } else {
        assert forall a :: a in table ==> table[a] != o;
      }
      assert forall a :: a in before ==> table[a] == if before[a] == o then new' else before[a];
    }

    /** checkAndFindNew_new: where an object is, or is now put. */
    method CheckAndFindNew(p: int, ghost open: set<int>) returns (new': int)
      requires Collecting(open) && GoodRef(y, p) && (InNew(y, p) ==> Forced(y, to.Keys, p))
      modifies this`to, this`src, this`oldNow, this`newNow, this`tlo, this`thi
      modifies this`moveStack, this`toSpace, this`wordsToBePromoted, this`table, elder`nextGen, elder.mem
      ensures Collecting(open) && Proceeds() && new' == Renamed(to, p) && Settled(y, to, p)
      ensures (new' != p <==> InNew(y, p)) && src == old(src)
    {
      hide InCopying, Forced, Fits, IsFresh, InNew, GoodRef, Extends;
      SeesRef(y, Now(), open, p);
      FromInNew(y, Now(), open, p);
      ExtendsSame(Now());
      hide UnderWayIn;
      if p == NIL {
        return p;
      }
      if InFrom(p) {
        if elder.mem[p].Forward? {
          new' := elder.mem[p].to;
        } else {
          new' := MoveObject(p, open);
        }
      } else {
        new' := p;
      }
    }

    /** in_from, with the bounds set by synchBounds. */
    predicate InFrom(p: int)
      reads this
    {
      if allocatingForward then newStart <= p < fromSpace else fromSpace <= p < newEnd
    }

    /** An object of from-space is copied and forwarded. */
    method MoveObject(p: int, ghost open: set<int>) returns (new': int)
      requires Collecting(open) && p in y.young && InNew(y, p) && p !in to && Forced(y, to.Keys, p)
      modifies this`to, this`src, this`oldNow, this`newNow, this`tlo, this`thi
      modifies this`moveStack, this`toSpace, this`wordsToBePromoted, this`table, elder`nextGen, elder.mem
      ensures Collecting(open) && Proceeds() && p in to && new' == to[p] && new' != p && src == old(src)
    {
      hide UnderWayIn, Forced, Placed, Place, InNew, Aged, IsFresh, Distinct, Extends;
      ghost var c, s, promoted := Now(), Where(), wordsToBePromoted;
      CarriedWhere(y, c, s, table, promoted, open, p);
      CarriedOn(y, c, s, table, promoted, open, p, Place(y, c, p, !s.forward));
      ExtendsPlaced(y, c, p, !s.forward);
      new' := Carry(p, elder.mem[p].size);
      PlacedParts(y, c, p, !s.forward, new');
      SetGhosts(Placed(y, c, p, !s.forward));
    }

    /** The ghost variables are brought in line. */
    ghost method SetGhosts(c: Copy)
      requires c.m == elder.mem[..] && c.ng == elder.nextGen && c.rem == elder.remSet && c.stack == moveStack && c.seen == seen
      modifies this`to, this`src, this`oldNow, this`newNow, this`tlo, this`thi
      ensures Now() == c
    {
      to, src, oldNow, newNow, tlo, thi := c.to, c.src, c.oldNow, c.newNow, c.tlo, c.thi;
    }

    /** forward: an object's flags word goes to its new place, a forwarding
        pointer takes its place, and its identifier follows it. */
    method Carry(p: int, size: int) returns (new': int)
      requires 0 <= p < elder.mem.Length && size >= 1 && Distinct(table)
      requires ObjectTable.CanReaddress(table, p, if Aged(Where(), p) then elder.nextGen else if allocatingForward then toSpace - size else toSpace)
      requires if Aged(Where(), p) then 0 <= elder.nextGen < elder.mem.Length
               else if allocatingForward then 0 <= toSpace - size < elder.mem.Length && toSpace - size >= fromSpace
               else 0 <= toSpace < elder.mem.Length && toSpace + size <= fromSpace
      modifies this`toSpace, this`wordsToBePromoted, this`moveStack, this`table, elder`nextGen, elder.mem
      ensures new' == if Aged(old(Where()), p) then old(elder.nextGen)
                      else if allocatingForward then old(toSpace) - size else old(toSpace)
      ensures Where() == MovedOn(old(Where()), p, size)
      ensures elder.nextGen == old(elder.nextGen) + if Aged(old(Where()), p) then size else 0
      ensures wordsToBePromoted == old(wordsToBePromoted) + if Aged(old(Where()), p) then 0 else size
      ensures table == ObjectTable.Readdressed(old(table), p, new')
      ensures 0 <= new' < elder.mem.Length && moveStack == old(moveStack) + [p]
      ensures elder.mem[..] == old(elder.mem[..])[new' := old(elder.mem[p])][p := Forward(new')]
    {
      var promotion := survivorsStart <= p < survivorsEnd;
      if promotion {
        new' := NewAddrInOld(size);
      } else {
        new' := NewAddrInNew(size);
        wordsToBePromoted := wordsToBePromoted + size;
      }
      elder.mem[new'] := elder.mem[p];
      elder.mem[p] := Forward(new');
      UpdateObjectLocation(p, new');
      moveStack := moveStack + [p];
    }

    predicate IsNew(r: int)
      reads this
    {
      newStart <= r < newEnd
    }

    /** A word with its reference brought up to date. */
    method NewWord(w: Word, ghost open: set<int>) returns (w': Word)
      requires Collecting(open) && IsField(w) && GoodRef(y, RefOf(w)) && (InNew(y, RefOf(w)) ==> Forced(y, to.Keys, RefOf(w)))
      modifies this`to, this`src, this`oldNow, this`newNow, this`tlo, this`thi
      modifies this`moveStack, this`toSpace, this`wordsToBePromoted, this`table, elder`nextGen, elder.mem
      ensures Collecting(open) && Proceeds() && src == old(src)
      ensures w' == MapWord(to, w) && Settled(y, to, RefOf(w)) && (RefOf(w') != RefOf(w) <==> InNew(y, RefOf(w)))
    {
      hide UnderWayIn, InCopying, GoodRef, Forced, Extends;
      NilOld(y, Now(), Where(), table, wordsToBePromoted, open);
      match w {
        case Ref(target) =>
          var r := CheckAndFindNew(target, open);
          w' := Ref(r);
        case _ =>
          ExtendsSame(Now());
          w' := w;
      }
    }

    /** A word of a copied object is moved; `loud` tells whether it refers to
        to-space then. */
    method MoveWord(p: int, newp: int, i: int) returns (loud: bool)
      requires Collecting({p}) && p in to && p in y.young && newp == to[p] && 1 <= i < y.young[p]
      requires Scanning(Now(), p, newp, y.young[p], i)
      modifies this`to, this`src, this`oldNow, this`newNow, this`tlo, this`thi
      modifies this`moveStack, this`toSpace, this`wordsToBePromoted, this`table, elder`nextGen, elder.mem
      ensures Collecting({p}) && Proceeds() && p in to && p in y.young && newp == to[p]
      ensures Scanning(Now(), p, newp, y.young[p], i + 1)
      ensures !loud && Quiet(old(y), old(Now()), p, i) ==> Quiet(y, Now(), p, i + 1)
      ensures loud ==> NamesFresh(y, p)
    {
      hide UnderWayIn, InCopying, Scanning, Quiet, GoodRef, Forced, Extends, Settled, NewTo, UnderWay, IsPiece, InNew, NamesFresh, MapWord, SameSides;
      ghost var c := Now();
      BeforeWord(y, c, Where(), table, wordsToBePromoted, {p}, p, i);
      var w := elder.mem[p + i];
      var w' := NewWord(w, {p});
      loud := RefOf(w') != RefOf(w) && IsNew(RefOf(w'));
      ghost var c1 := Now();
      if loud {
        LoudWord(y, c1, Where(), table, wordsToBePromoted, {p}, p, i, w');
      }
      ExtendsAt(c, c1, p);
      ScanningSame(c, c1, p, newp, y.young[p], i);
      CopiedParts(y, c1, Where(), table, wordsToBePromoted, {p}, p);
      WordMoved(y, c1, Where(), table, wordsToBePromoted, {p}, newp, y.young[p], newp + i, w', p + i);
      WordQuiet(y, c, c1, Where(), table, wordsToBePromoted, {p}, p, i, newp + i, w', loud);
      elder.mem[newp + i] := w';
      SetGhosts(Finish(c1, newp + i, w', p + i));
      ScanningNext(c1, p, newp, y.young[p], i, w');
      ExtendsTrans(c, c1, Now());
    }

    /** move_fields with checkAndFindNew_new: everything a copied object refers
        to is copied too; `answer` tells whether it then refers to to-space. */
    method MoveFields(p: int, newp: int) returns (answer: bool)
      requires Collecting({p}) && p in to && p in y.young && newp == to[p] && Unfinished(src, newp, y.young[p])
      modifies this`to, this`src, this`oldNow, this`newNow, this`tlo, this`thi
      modifies this`moveStack, this`toSpace, this`wordsToBePromoted, this`table, elder`nextGen, elder.mem
      ensures Collecting({p}) && Proceeds() && p in to && p in y.young && newp == to[p]
      ensures Finished(src, p, newp, y.young[p])
      ensures !answer ==> NoYoung(y, elder.mem[..], newp, y.young[p])
      ensures answer ==> NamesFresh(y, p)
    {
      hide UnderWayIn, InCopying, Scanning, Quiet, GoodRef, Forced, Extends, Settled, NewTo, UnderWay, IsPiece, InNew, Unfinished, Finished, NoYoung, NamesFresh;
      ghost var c0 := Now();
      CopiedParts(y, c0, Where(), table, wordsToBePromoted, {p}, p);
      answer := MoveType(newp, {p});
      var size, i := elder.mem[newp].size, 1;
      ScanningStart(c0, p, newp, size);
      QuietStart(y, c0, p);
      ExtendsSame(c0);
      while i < size
        invariant 1 <= i <= size && Collecting({p}) && Proceeds() && p in to && p in y.young && newp == to[p] && size == y.young[p]
        invariant Scanning(Now(), p, newp, size, i) && (!answer ==> Quiet(y, Now(), p, i)) && (answer ==> NamesFresh(y, p))
      {
        ghost var c := Now();
        var loud := MoveWord(p, newp, i);
        answer := answer || loud;
        ExtendsTrans(c0, c, Now());
        i := i + 1;
      }
      ScanningDone(Now(), p, newp, size);
      FieldsQuiet(y, Now(), Where(), table, wordsToBePromoted, p, answer);
    }

    /** The type of an object is not young, and stays. */
    method MoveType(t: int, ghost open: set<int>) returns (answer: bool)
      requires Collecting(open) && 0 <= t < elder.mem.Length && elder.mem[t].Head?
      requires GoodRef(y, elder.mem[t].ct) && !InNew(y, elder.mem[t].ct)
      modifies this`to, this`src, this`oldNow, this`newNow, this`tlo, this`thi
      modifies this`moveStack, this`toSpace, this`wordsToBePromoted, this`table, elder`nextGen, elder.mem
      ensures Collecting(open) && Now() == old(Now()) && Where() == old(Where()) && !answer && y == old(y)
    {
      hide UnderWayIn, InCopying, GoodRef, Forced, Extends;
      var ct := elder.mem[t].ct;
      ghost var m := elder.mem[..];
      var nct := CheckAndFindOld(ct, open);
      answer := nct != ct && IsNew(nct);
      elder.mem[t] := elder.mem[t].(ct := nct);
      assert elder.mem[..] == m;
    }

    /** checkAndFindNew_new for what is not in from-space. */
    method CheckAndFindOld(p: int, ghost open: set<int>) returns (new': int)
      requires Collecting(open) && GoodRef(y, p) && !InNew(y, p)
      ensures new' == p
    {
      hide UnderWayIn;
      NotInFrom(y, Now(), Where(), table, wordsToBePromoted, open, p);
      if p == NIL {
        return p;
      }
      if InFrom(p) {
        assert false;
      }
      new' := p;
    }

    /** new_rem_set. */
    method NewRemSet(elem: int)
      requires 0 <= elem < elder.mem.Length && elder.mem[elem].Head?
      modifies elder`remSet, elder.mem
      ensures elder.remSet == old(elder.remSet) + if old(elder.mem[elem].mark) then [] else [elem]
      ensures elder.mem[..] == old(elder.mem[..])[elem := old(elder.mem[elem]).(mark := true)]
    {
      if !elder.mem[elem].mark {
        elder.remSet := elder.remSet + [elem];
        elder.mem[elem] := elder.mem[elem].(mark := true);
      }
    }

    /** A promoted object that refers to to-space is remembered. */
    method RememberPromoted(p: int, newp: int)
      requires Collecting({p}) && p in to && newp == to[p] && Aged(Where(), p)
      modifies elder`remSet, elder.mem
      ensures Collecting({p}) && Proceeds() && newp in elder.remSet
      ensures elder.remSet == old(elder.remSet) || elder.remSet == old(elder.remSet) + [newp]
    {
      hide UnderWayIn, Extends;
      ghost var c := Now();
      PromotedHead(y, c, Where(), table, wordsToBePromoted, p);
      NewRemSet(newp);
      if newp in c.rem {
        assert elder.mem[..] == c.m;
        assert Now() == c;
        ExtendsSame(c);
      } else {
        PromotedRemember(y, c, Where(), table, wordsToBePromoted, p);
        assert Now() == Remember(c, newp);
      }
    }

    /** flushStack: the copied objects waiting on the stack are scanned, and
        those promoted that refer to to-space are remembered. */
    method FlushStack()
      requires Collecting({})
      modifies this`to, this`src, this`oldNow, this`newNow, this`tlo, this`thi
      modifies this`moveStack, this`toSpace, this`wordsToBePromoted, this`table, elder`nextGen, elder`remSet, elder.mem
      ensures Collecting({}) && Proceeds() && moveStack == [] && Appended(y, to, old(elder.remSet), elder.remSet)
    {
      hide UnderWayIn, InCopying, Extends, Flushed, Appended;
      ghost var c0 := Now();
      ExtendsSame(c0);
      AppendedNone(y, to, elder.remSet);
      while moveStack != []
        invariant Collecting({}) && Proceeds() && Appended(y, to, c0.rem, elder.remSet)
        decreases y.young.Keys - Flushed(Now())
      {
        ghost var c := Now();
        FlushOne();
        ExtendsTrans(c0, c, Now());
        AppendedTrans(y, c0.rem, c, Now());
      }
    }

    /** One object off the stack. */
    method FlushOne()
      requires Collecting({}) && moveStack != []
      modifies this`to, this`src, this`oldNow, this`newNow, this`tlo, this`thi
      modifies this`moveStack, this`toSpace, this`wordsToBePromoted, this`table, elder`nextGen, elder`remSet, elder.mem
      ensures Collecting({}) && Proceeds() && Appended(y, to, old(elder.remSet), elder.remSet)
      ensures y.young.Keys - Flushed(Now()) < old(y.young.Keys - Flushed(Now()))
    {
      hide UnderWayIn, InCopying, Extends, Unfinished, Finished, NoYoung, Appended, NamesFresh, IsFresh;
      ghost var c := Now();
      TakenUp(y, c, Where(), table, wordsToBePromoted);
      ExtendsPopped(c);
      var p := moveStack[|moveStack| - 1];
      moveStack := moveStack[..|moveStack| - 1];
      ghost var c1 := Now();
      var newp := elder.mem[p].to;
      var answer := MoveFields(p, newp);
      ghost var c2 := Now();
      ExtendsTrans(c, c1, c2);
      AppendedNone(y, to, c.rem);
      if answer && survivorsStart <= p < survivorsEnd {
        AgedNotFresh(y, c2, Where(), table, wordsToBePromoted, {p}, p);
        AppendedOne(y, to, c.rem, p);
        RememberPromoted(p, newp);
      } else {
        ExtendsSame(c2);
      }
      ghost var c3 := Now();
      ExtendsAt(c2, c3, p);
      FinishedOn(c2, c3, p, newp, y.young[p]);
      DoneWith(y, c3, Where(), table, wordsToBePromoted, p);
      ExtendsTrans(c, c2, c3);
      ExtendsTrans(c1, c2, c3);
      FlushedMore(c, c1, c3, p);
    }

    // ----- the roots -----

    method MoveOldWord(o: int, i: int) returns (changed: bool)
      requires Collecting({o}) && IsOld(y, o) && o in y.rem && o !in seen && 1 <= i < y.olds[o]
      requires Scanning(Now(), o, o, y.olds[o], i)
      modifies this`to, this`src, this`oldNow, this`newNow, this`tlo, this`thi
      modifies this`moveStack, this`toSpace, this`wordsToBePromoted, this`table, elder`nextGen, elder.mem
      ensures Collecting({o}) && Proceeds() && Scanning(Now(), o, o, y.olds[o], i + 1)
      ensures !changed && OldQuiet(y, o, i) ==> OldQuiet(y, o, i + 1)
      ensures changed ==> !NoYoung(y, y.m, o, y.olds[o])
    {
      hide UnderWayIn, InCopying, Scanning, OldQuiet, GoodRef, Forced, Extends, Settled, UnderWay, IsPiece, InNew, NoYoung;
      ghost var c, n := Now(), y.olds[o];
      OldBeforeWord(y, c, Where(), table, wordsToBePromoted, o, i);
      var w := elder.mem[o + i];
      var w' := NewWord(w, {o});
      changed := RefOf(w') != RefOf(w);
      if changed {
        NamesYoung(y, o, i, n);
      }
      ghost var c1 := Now();
      ScanningSame(c, c1, o, o, n, i);
      OldBeforeWord(y, c1, Where(), table, wordsToBePromoted, o, i);
      WordMoved(y, c1, Where(), table, wordsToBePromoted, {o}, o, n, o + i, w', o + i);
      if !changed && OldQuiet(y, o, i) {
        OldQuietNext(y, o, i);
      }
      elder.mem[o + i] := w';
      SetGhosts(Finish(c1, o + i, w', o + i));
      ScanningNext(c1, o, o, n, i, w');
      ExtendsTrans(c, c1, Now());
    }

    /** tl_move for a remembered object: `changed` tells whether a reference in
        it has changed. */
    method TlMove(o: int) returns (changed: bool)
      requires Collecting({}) && moveStack == [] && IsOld(y, o) && o in y.rem && o !in seen && o in elder.remSet
      modifies this`to, this`src, this`oldNow, this`newNow, this`tlo, this`thi, this`seen
      modifies this`moveStack, this`toSpace, this`wordsToBePromoted, this`table, elder`nextGen, elder`remSet, elder.mem
      ensures Collecting({}) && moveStack == [] && Proceeds() && seen == old(seen) + {o}
      ensures changed <==> !NoYoung(y, y.m, o, y.olds[o])
      ensures Appended(y, to, old(elder.remSet), elder.remSet)
    {
      hide UnderWayIn, InCopying, Scanning, OldQuiet, GoodRef, Forced, Extends, InNew, Unfinished, Finished, NoYoung, IsOld, Appended;
      ghost var c0 := Now();
      OldTakenUp(y, c0, Where(), table, wordsToBePromoted, o);
      changed := MoveType(o, {o});
      var size, i := elder.mem[o].size, 1;
      ScanningStart(c0, o, o, size);
      ExtendsSame(c0);
      while i < size
        invariant 1 <= i <= size && Collecting({o}) && Proceeds() && o in y.olds && size == y.olds[o]
        invariant Scanning(Now(), o, o, size, i) && (!changed ==> OldQuiet(y, o, i)) && (changed ==> !NoYoung(y, y.m, o, y.olds[o]))
        invariant seen == old(seen) && elder.remSet == old(elder.remSet)
      {
        ghost var c := Now();
        var more := MoveOldWord(o, i);
        changed := changed || more;
        ExtendsTrans(c0, c, Now());
        i := i + 1;
      }
      ScanningDone(Now(), o, o, size);
      OldDone(y, Now(), Where(), table, wordsToBePromoted, o);
      if !changed {
        OldQuietDone(y, Now(), Where(), table, wordsToBePromoted, {o}, o);
      }
      ghost var c1 := Now();
      seen := seen + {o};
      ExtendsSeen(c0, c1, Now());
      c1 := Now();
      FlushStack();
      ExtendsTrans(c0, c1, Now());
    }

    /** moveFromRoots1: everything remembered objects refer to is copied; those
        in which nothing has changed are struck out. */
    method MoveFromRoots1()
      requires Collecting({}) && moveStack == [] && elder.remSet == y.rem && seen == {}
      modifies this`to, this`src, this`oldNow, this`newNow, this`tlo, this`thi, this`seen
      modifies this`moveStack, this`toSpace, this`wordsToBePromoted, this`table, elder`nextGen, elder`remSet, elder.mem
      ensures Collecting({}) && moveStack == [] && y == old(y) && SameSides(old(Where()), Where())
      ensures (forall a :: a in y.rem ==> a in seen) && GoneThrough(y, to, elder.remSet, |y.rem|)
    {
      hide UnderWayIn, InCopying, Extends, NoYoung, IsOld, GoneThrough;
      var limit, i := |elder.remSet|, 0;
      StruckNone(y, to);
      while i < limit
        invariant 0 <= i <= limit == |y.rem| <= |elder.remSet| && Collecting({}) && moveStack == [] && y == old(y)
        invariant SameSides(old(Where()), Where()) && GoneThrough(y, to, elder.remSet, i)
        invariant forall j :: i <= j < limit ==> elder.remSet[j] == y.rem[j]
        invariant seen == set j | 0 <= j < i :: y.rem[j]
      {
        i := MoveFromRoot(i);
      }
    }

    /** One remembered object. */
    method MoveFromRoot(i: int) returns (next: int)
      requires Collecting({}) && moveStack == [] && 0 <= i < |y.rem| <= |elder.remSet|
      requires forall j :: i <= j < |y.rem| ==> elder.remSet[j] == y.rem[j]
      requires seen == (set j | 0 <= j < i :: y.rem[j]) && GoneThrough(y, to, elder.remSet, i)
      modifies this`to, this`src, this`oldNow, this`newNow, this`tlo, this`thi, this`seen
      modifies this`moveStack, this`toSpace, this`wordsToBePromoted, this`table, elder`nextGen, elder`remSet, elder.mem
      ensures Collecting({}) && moveStack == [] && y == old(y) && SameSides(old(Where()), Where())
      ensures next == i + 1 && |y.rem| <= |elder.remSet| && GoneThrough(y, to, elder.remSet, next)
      ensures forall j :: next <= j < |y.rem| ==> elder.remSet[j] == y.rem[j]
      ensures seen == set j | 0 <= j < next :: y.rem[j]
    {
      hide UnderWayIn, InCopying, NoYoung, IsOld, GoneThrough, Appended, Extends;
      ghost var c0 := Now();
      RememberedOld(y, Now(), Where(), table, wordsToBePromoted, {});
      var o := elder.remSet[i];
      assert o == y.rem[i];
      assert o in y.rem && o in elder.remSet;
      ghost var before := elder.remSet;
      var changed := TlMove(o);
      ghost var c1 := Now();
      ExtendsRem(c0, c1);
      if !changed {
        OldForgotten(y, Now(), Where(), table, wordsToBePromoted, i);
        ghost var c := Forget(Now(), i);
        elder.mem[o] := elder.mem[o].(mark := false);
        elder.remSet := elder.remSet[i := NIL];
        assert elder.mem[..] == c.m;
        assert Now() == c;
      }
      next := i + 1;
      assert elder.remSet == c1.rem[i := Struck(y, y.rem[i])];
      StruckNext(y, elder.remSet, c0, c1, i);
    }

    /** ch_rem_set: the members struck out are removed. */
    method ChRemSet()
      requires Collecting({})
      modifies elder`remSet
      ensures Collecting({}) && NIL !in elder.remSet && elder.remSet == Kept(old(elder.remSet), |old(elder.remSet)|)
    {
      hide UnderWayIn;
      ghost var rem := elder.remSet;
      var kept: seq<int> := [];
      var i := 0;
      KeptNone(rem);
      while i < |elder.remSet|
        invariant 0 <= i <= |rem| && elder.remSet == rem && kept == Kept(rem, i)
      {
        if elder.remSet[i] != NIL {
          kept := kept + [elder.remSet[i]];
        }
        i := i + 1;
      }
      RemKept(y, Now(), Where(), table, wordsToBePromoted);
      elder.remSet := kept;
    }

    /** What the external roots refer to is copied. */
    method MoveRoots()
      requires Collecting({}) && moveStack == [] && roots[..] == y.roots
      modifies this`to, this`src, this`oldNow, this`newNow, this`tlo, this`thi, roots
      modifies this`moveStack, this`toSpace, this`wordsToBePromoted, this`table, elder`nextGen, elder`remSet, elder.mem
      ensures Collecting({}) && moveStack == [] && Proceeds()
      ensures RootsMoved(y, Now(), roots[..], roots.Length) && Appended(y, to, old(elder.remSet), elder.remSet)
    {
      hide UnderWayIn, InCopying, Extends, RootsMoved, GoodRef, InNew, Forced, Settled, Appended;
      var i := 0;
      ghost var c0 := Now();
      ExtendsSame(c0);
      AppendedNone(y, to, elder.remSet);
      RootsNone(y, c0, roots[..]);
      while i < roots.Length
        invariant 0 <= i <= roots.Length == |y.roots| && Collecting({}) && moveStack == [] && Proceeds()
        invariant Appended(y, to, c0.rem, elder.remSet)
        invariant RootsMoved(y, Now(), roots[..], i) && forall j :: i <= j < roots.Length ==> roots[j] == y.roots[j]
      {
        ghost var c, rs := Now(), roots[..];
        RootGood(y, c, Where(), table, wordsToBePromoted, i);
        var new' := CheckAndFindNew(roots[i], {});
        roots[i] := new';
        ghost var c1 := Now();
        FlushStack();
        ExtendsTrans(c, c1, Now());
        ExtendsTrans(c0, c, Now());
        AppendedTrans(y, c0.rem, c, Now());
        assert roots[..] == rs[i := new'];
        NewToIn(y, c, Now(), Where(), table, wordsToBePromoted);
        NewToIn(y, c1, Now(), Where(), table, wordsToBePromoted);
        RenamedLater(y, c1, Now(), y.roots[i]);
        RootsNext(y, c, Now(), rs, i, new');
        i := i + 1;
      }
    }

    /** What the object table refers to is copied, slot by slot. */
    method MoveTable()
      requires Collecting({}) && moveStack == [] && Slotted()
      modifies this`to, this`src, this`oldNow, this`newNow, this`tlo, this`thi
      modifies this`moveStack, this`toSpace, this`wordsToBePromoted, this`table, elder`nextGen, elder`remSet, elder.mem
      ensures Collecting({}) && moveStack == [] && Proceeds() && Appended(y, to, old(elder.remSet), elder.remSet)
      ensures forall a :: a in y.table ==> Settled(y, to, y.table[a])
    {
      hide UnderWayIn, InCopying, Extends, GoodRef, InNew, Forced, Settled, Appended;
      var i := 0;
      ghost var c0 := Now();
      ExtendsSame(c0);
      AppendedNone(y, to, elder.remSet);
      TableKeys(y, c0, Where(), table, wordsToBePromoted);
      while i < |slots|
        invariant 0 <= i <= |slots| && Collecting({}) && moveStack == [] && Proceeds() && Slotted()
        invariant Appended(y, to, c0.rem, elder.remSet)
        invariant forall a :: a in y.table && a in slots[..i] ==> Settled(y, to, y.table[a])
      {
        ghost var c := Now();
        assert slots[i] in slots && slots[..i + 1] == slots[..i] + [slots[i]];
        TableKeys(y, c, Where(), table, wordsToBePromoted);
        if slots[i] in table {
          MoveEntry(slots[i]);
        } else {
          ExtendsSame(c);
          AppendedNone(y, to, elder.remSet);
        }
        ExtendsTrans(c0, c, Now());
        AppendedTrans(y, c0.rem, c, Now());
        forall a | a in y.table && a in slots[..i]
          ensures Settled(y, to, y.table[a])
        {
          SettledLater(y, c, Now(), y.table[a]);
        }
        TableKeys(y, Now(), Where(), table, wordsToBePromoted);
        i := i + 1;
      }
      TableKeys(y, Now(), Where(), table, wordsToBePromoted);
      assert slots[..|slots|] == slots;
    }

    /** One entry of the object table. */
    method MoveEntry(a: int)
      requires Collecting({}) && moveStack == [] && a in table && a in y.table
      modifies this`to, this`src, this`oldNow, this`newNow, this`tlo, this`thi
      modifies this`moveStack, this`toSpace, this`wordsToBePromoted, this`table, elder`nextGen, elder`remSet, elder.mem
      ensures Collecting({}) && moveStack == [] && Proceeds() && Settled(y, to, y.table[a])
      ensures Appended(y, to, old(elder.remSet), elder.remSet)
    {
      hide UnderWayIn, InCopying, Extends, GoodRef, InNew, Forced, Settled, Appended;
      ghost var c := Now();
      EntryGood(y, c, Where(), table, wordsToBePromoted, a);
      ExtendsSame(c);
      var p := table[a];
      if InFrom(p) {
        p := CheckAndFindNew(p, {});
        TableKeys(y, Now(), Where(), table, wordsToBePromoted);
        EntryNow(y, Now(), Where(), table, wordsToBePromoted, a);
      }
      assert p == table[a];
      ghost var t := table;
      table := table[a := p];
      assert table == t;
      ghost var c1 := Now();
      FlushStack();
      ExtendsTrans(c, c1, Now());
      SettledLater(y, c1, Now(), y.table[a]);
    }

    // ----- whole collections -----

    /** synchBounds and the start of gcollect. */
    method Begin()
      requires Valid()
      modifies this`wordsToBePromoted, this`y, this`to, this`src, this`oldNow, this`newNow, this`tlo, this`thi, this`seen
      ensures Collecting({}) && y == old(State()) && seen == {}
    {
      hide Healthy, Allowance, UnderWayIn, FreshWords, SurvivorWords;
      ghost var s0 := State();
      ghost var c := Copy(s0.m, map[], map[], s0.olds, map[], s0.ohi, toSpace, toSpace, s0.rem, [], {});
      BeginUnderWay(s0, c, Where(), wordsLeft, wordsPerGeneration, guaranteeInterGcInterval);
      wordsToBePromoted := 0;
      StartGhosts(s0, c);
    }

    ghost method StartGhosts(s0: Before, c: Copy)
      requires c.m == elder.mem[..] && c.ng == elder.nextGen && c.rem == elder.remSet && c.stack == moveStack
      modifies this`y, this`to, this`src, this`oldNow, this`newNow, this`tlo, this`thi, this`seen
      ensures Now() == c && y == s0
    {
      y, to, src, oldNow, newNow, tlo, thi, seen := s0, c.to, c.src, c.oldNow, c.newNow, c.tlo, c.thi, c.seen;
    }

    /** The copying of gcollect. */
    method CopyPhase()
      requires Valid()
      modifies this`y, this`to, this`src, this`oldNow, this`newNow, this`tlo, this`thi, this`seen
      modifies this`moveStack, this`toSpace, this`wordsToBePromoted, this`table, elder`nextGen, elder`remSet, elder.mem, roots
      ensures AllDone(y, Now()) && InSpaces(y, Now(), Where()) && wordsToBePromoted == thi - tlo && table == Entries(y, to)
      ensures roots[..] == RenamedRoots(y, to)
      ensures 0 <= thi - tlo <= FreshWords(y) && elder.nextGen - y.ohi <= SurvivorWords(y)
      ensures Fits(y, Now(), !allocatingForward) && Slotted() && moveStack == [] && y == old(State())
      ensures RememberedExactly(y, to, elder.remSet)
    {
      hide Healthy, Allowance, UnderWayIn, Extends, RootsMoved, AllDone, FreshWords, SurvivorWords, Entries, InSpaces, Fits, Settled,
           GoneThrough, RememberedExactly, Appended;
      Begin();
      MoveFromRoots1();
      StruckExactly(y, to, elder.remSet);
      RememberedOld(y, Now(), Where(), table, wordsToBePromoted, {});
      KeptExactly(y, to, elder.remSet);
      ChRemSet();
      ghost var c1 := Now();
      MoveRoots();
      ghost var c2, rs := Now(), roots[..];
      AppendedExactly(y, c1, c2);
      TableKeys(y, c2, Where(), table, wordsToBePromoted);
      MoveTable();
      TableKeys(y, Now(), Where(), table, wordsToBePromoted);
      AppendedExactly(y, c2, Now());
      ExtendsTrans(c1, c2, Now());
      NoNilAdded(c1, Now());
      NewToIn(y, c2, Now(), Where(), table, wordsToBePromoted);
      RootsExtend(y, c2, Now(), rs);
      EndUnderWay(y, Now(), Where(), table, wordsToBePromoted, rs);
    }

    /** The copying of gcollect, and swap: exactly the reached young objects are
        kept, each copied once, and everything refers to them where they are now. */
    method CopyAll()
      requires Valid()
      modifies this, elder`nextGen, elder`remSet, elder.mem, roots
      ensures Healthy(State()) && Slotted() && moveStack == [] && y == old(State())
      ensures Relocated(y, State(), to) && forall a :: a in to <==> Reached(y, a)
      ensures if allocatingForward then survivorsStart == newStart && toSpace == newEnd else survivorsEnd == newEnd && toSpace == newStart
      ensures wordsToBePromoted == SurvivorWords(State()) <= FreshWords(y) && FreshWords(State()) == 0 && 0 <= wordsToBePromoted
      ensures elder.nextGen - y.ohi <= SurvivorWords(y) && nGCs == old(nGCs) && wordsLeft == old(wordsLeft)
      ensures Survival.SameBounds(y, State())
      ensures RememberedExactly(y, to, elder.remSet)
      ensures forall a :: a in to ==> if old(survivorsStart) <= a < old(survivorsEnd) then to[a] in olds && to[a] >= y.ohi else to[a] in young
    {
      hide Healthy, Allowance, UnderWayIn, Extends, RootsMoved, Relocated, Reached, AllDone, RememberedExactly;
      ghost var s0, from, upto := State(), survivorsStart, survivorsEnd;
      CopyPhase();
      ghost var c, low := Now(), allocatingForward;
      ExactlyReached(y, c);
      AllRelocated(y, c, low);
      StillHealthy(y, c, low);
      SwapOver(c);
      Aging(s0, State(), to, from, upto);
    }

    /** Survivors of the last collection are promoted, the others stay young. */
    static lemma Aging(s0: Before, s: Before, to: map<int, int>, from: int, upto: int)
      requires Healthy(s0) && Relocated(s0, s, to)
      requires if s0.low then from == s0.mid && upto == s0.fhi else from == s0.flo && upto == s0.mid
      ensures forall a :: a in to ==> if from <= a < upto then to[a] in s.olds && to[a] >= s0.ohi else to[a] in s.young
    {
      forall a | a in to
        ensures if from <= a < upto then to[a] in s.olds && to[a] >= s0.ohi else to[a] in s.young
      {
        assert CopyDone.Carried(s0, s, to, a);
        YoungRange(s0, a);
      }
    }

    /** swap, with the objects where they are now. */
    method SwapOver(ghost c: Copy)
      requires c == Now() && InSpaces(y, c, Where()) && Fits(y, c, !allocatingForward) && table == Entries(y, to) && roots[..] == RenamedRoots(y, to)
      modifies this`fromSpace, this`toSpace, this`survivorsStart, this`survivorsEnd, this`allocatingForward, this`young, this`olds
      ensures State() == AfterCopy(y, c, old(allocatingForward))
      ensures if allocatingForward then survivorsStart == newStart && toSpace == newEnd else survivorsEnd == newEnd && toSpace == newStart
    {
      hide Entries, IsFresh;
      Swap();
      young, olds := newNow, oldNow;
    }

    /** swap: the two halves change places. */
    method Swap()
      modifies this`fromSpace, this`toSpace, this`survivorsStart, this`survivorsEnd, this`allocatingForward
      ensures fromSpace == old(toSpace) && allocatingForward != old(allocatingForward)
      ensures if allocatingForward then survivorsStart == newStart && survivorsEnd == fromSpace && toSpace == newEnd
              else survivorsStart == fromSpace && survivorsEnd == newEnd && toSpace == newStart
    {
      fromSpace := toSpace;
      if allocatingForward {
        toSpace, survivorsStart, survivorsEnd := newStart, fromSpace, newEnd;
      } else {
        toSpace, survivorsStart, survivorsEnd := newEnd, newStart, fromSpace;
      }
      allocatingForward := !allocatingForward;
    }

    // ----- garbage collection and allocation -----

    /** gcollect, up to the collection of the old generation. */
    method CollectYoung()
      requires Valid()
      modifies this, elder`nextGen, elder`remSet, elder.mem, roots
      ensures Between() && y == old(State()) && Relocated(y, State(), to) && forall a :: a in to <==> Reached(y, a)
      ensures Survival.YoungDone(y, State(), to)
      ensures nGCs == old(nGCs) + 1 && wordsLeft >= wordsPerGeneration
      ensures wordsLeft == if guaranteeInterGcInterval then wordsPerGeneration else (newEnd - newStart + wordsToBePromoted) / 2 - wordsToBePromoted
      ensures wordsToBePromoted == survivorsEnd - survivorsStart && if allocatingForward then survivorsEnd == fromSpace else survivorsStart == fromSpace
      ensures RememberedExactly(y, to, elder.remSet)
      ensures forall a :: a in to ==> if old(survivorsStart) <= a < old(survivorsEnd) then to[a] in olds && to[a] >= y.ohi else to[a] in young
    {
      hide Healthy, Relocated, Reached, RememberedExactly;
      AllowanceNow();
      CopyAll();
      nGCs := nGCs + 1;
      var live := LiveWordsNow();
      wordsLeft := if guaranteeInterGcInterval then wordsPerGeneration
                   else (newEnd - newStart + wordsToBePromoted) / 2 - live;
      AllowanceNext(newEnd - newStart, SurvivorWords(y), FreshWords(y), old(wordsLeft), wordsPerGeneration, guaranteeInterGcInterval,
                    wordsToBePromoted);
    }

    lemma AllowanceNow()
      requires Between()
      ensures Allowance(newEnd - newStart, SurvivorWords(State()), FreshWords(State()), wordsLeft, wordsPerGeneration, guaranteeInterGcInterval)
    {
      hide Healthy, Allowance;
    }

    /** A type is an old object, or none of the collector's. */
    predicate TypeRef(r: int)
      reads this
    {
      r != NIL && !(newStart <= r < newEnd)
    }

    static lemma TypesStay(s0: Before, s: Before, to: map<int, int>)
      requires Healthy(s0) && Relocated(s0, s, to)
      ensures |s.roots| == |s0.roots|
      ensures forall i :: 0 <= i < |s.roots| && !InNew(s0, s0.roots[i]) ==> s.roots[i] == s0.roots[i]
    {
      HealthyParts(s0);
      forall a | a in to
        ensures InNew(s0, a)
      {
        assert CopyDone.Carried(s0, s, to, a);
      }
    }

    static lemma TypesFollow(s0: Before, v: Marking.World, live: set<int>, to: map<int, int>, rem: seq<int>)
      requires Collected(s0, v, live, to, rem)
      ensures |v.roots| == |s0.roots|
      ensures forall i :: 0 <= i < |v.roots| && s0.roots[i] != NIL && !InNew(s0, s0.roots[i]) ==> v.roots[i] != NIL && !InNew(s0, v.roots[i])
    {
      RenamedWhere(s0, v, live, to, rem);
      RootsAfter(s0, v, live, to, rem);
      HealthyParts(s0);
    }

    /** liveWords. */
    method LiveWordsNow() returns (live: int)
      ensures live == if allocatingForward then fromSpace - newStart else newEnd - fromSpace
    {
      live := if allocatingForward then fromSpace - newStart else newEnd - fromSpace;
    }

    /** gcollect_old. */
    method CollectOld()
      requires Between()
      modifies this`table, this`olds, elder, elder.mem, roots
      ensures Between() && elder.nextGen <= old(elder.nextGen)
      ensures Collected(old(State()), ForOld(State()), elder.plan.live, elder.to, elder.remSet)
      ensures Survival.OldDone(old(State()), State(), elder.plan.live, elder.to)
      ensures forall i :: 0 <= i < roots.Length && TypeRef(old(roots[i])) ==> TypeRef(roots[i])
      ensures nGCs == old(nGCs)
      ensures elder.nextGen - elder.oldStart == elder.wordsNeeded + elder.wordsWasted
    {
      hide Healthy, Allowance, OldCollection.Sound, OldCollection.Preserved, OldCollection.Unflagged, Collected, Marking.Reachable,
           FreshWords, SurvivorWords, ForOld, Compacted;
      ghost var s0 := State();
      ghost var v := RunOld();
      CompactedHealthy(s0, v, elder.plan.live, elder.to, table, elder.remSet);
      CompactedSame(s0, v, elder.plan.live, elder.to, table, elder.remSet, State());
      TypesFollow(s0, v, elder.plan.live, elder.to, elder.remSet);
    }

    /** The call of the collector of the old generation; `v` is what it leaves. */
    method RunOld() returns (ghost v: Marking.World)
      requires Between()
      modifies this`table, this`olds, elder, elder.mem, roots
      ensures Collected(old(State()), v, elder.plan.live, elder.to, elder.remSet)
      ensures State() == old(State()).(m := v.m, olds := v.len, ohi := v.hi, roots := v.roots, table := table, rem := elder.remSet)
      ensures table == map a | a in OldCollection.Purged(old(table), elder.oldStart, elder.oldEnd, elder.plan.live) :: Renamed(elder.to, old(table)[a])
      ensures forall a :: a in elder.plan.live <==> Marking.Reachable(OldCollection.Unflagged(ForOld(old(State()))), a)
      ensures elder.nextGen <= old(elder.nextGen) && elder.nextGen - elder.oldStart == elder.wordsNeeded + elder.wordsWasted
      ensures Slotted()
    {
      hide Healthy, Allowance, OldCollection.Sound, OldCollection.Preserved, OldCollection.Unflagged, Collected, Marking.Reachable,
           FreshWords, SurvivorWords, Marking.IsObject;
      ghost var s0 := State();
      HealthySound(s0);
      NamesDiffer(s0);
      var from, upto := if allocatingForward then newStart else fromSpace, if allocatingForward then fromSpace else newEnd;
      table := elder.GCollectOld(from, upto, roots, table, slots, ForOld(s0));
      olds := elder.plan.tile;
      v := elder.Whole(elder.plan.tile, from, upto, roots);
      LiveAreObjects(s0, v, elder.plan.live, elder.to, elder.remSet);
    }

    static lemma NamesDiffer(s0: Before)
      requires Healthy(s0)
      ensures Distinct(s0.table)
    {
    }

    static lemma LiveAreObjects(s0: Before, v: Marking.World, live: set<int>, to: map<int, int>, rem: seq<int>)
      requires Healthy(s0) && OldCollection.Preserved(OldCollection.Unflagged(ForOld(s0)), v, live, to, rem) && OldCollection.Sound(v, rem)
      requires rem == OldCollection.Renaming(OldCollection.Only(s0.rem, live), to)
      requires forall a :: a in live ==> Marking.IsObject(OldCollection.Unflagged(ForOld(s0)), a)
      ensures Collected(s0, v, live, to, rem)
    {
      SameObjects(s0);
    }

    static lemma CompactedSame(s0: Before, v: Marking.World, live: set<int>, to: map<int, int>, table: map<int, int>, rem: seq<int>, s: Before)
      requires Collected(s0, v, live, to, rem)
      requires s == s0.(m := v.m, olds := v.len, ohi := v.hi, roots := v.roots, table := table, rem := rem)
      ensures s == Compacted(s0, v, table, rem) && ForOld(s) == v
      ensures FreshWords(s) == FreshWords(s0) && SurvivorWords(s) == SurvivorWords(s0)
    {
      CollectedBounds(s0, v, live, to, rem);
    }

    /** gcollect: false when the VM has run out of memory and stops.  `moved`
        says where every object that is kept has gone. */
    method Gcollect() returns (ok: bool, ghost moved: map<int, int>)
      requires Valid()
      modifies this, elder, elder.mem, roots
      ensures Between() && (ok <==> Valid()) && nGCs == old(nGCs) + 1 && wordsLeft >= wordsPerGeneration
      ensures wordsLeft == if guaranteeInterGcInterval then wordsPerGeneration else (newEnd - newStart + wordsToBePromoted) / 2 - wordsToBePromoted
      ensures Survival.Gathered(old(State()), State(), moved) && Survival.Moved(old(State()), State(), moved)
      ensures forall i :: 0 <= i < roots.Length && TypeRef(old(roots[i])) ==> TypeRef(roots[i])
    {
      hide Healthy, Relocated, Reached, Allowance, Collected, Survival.Moved, Survival.YoungDone, Survival.OldDone;
      CollectYoung();
      TypesStay(y, State(), to);
      ghost var s0, x := y, State();
      moved := Survival.AfterYoung(s0, to);
      assert Survival.YoungGathered(s0, x, moved);
      if elder.oldEnd - elder.nextGen < wordsToBePromoted {
        CollectOld();
        ghost var m := Survival.AfterOld(x, elder.plan.live, elder.to);
        assert Survival.OldGathered(x, State(), m);
        moved := Survival.Then(moved, m);
      }
      Survival.GatheredMoves(s0, State(), moved);
      ok := elder.oldEnd - elder.nextGen >= wordsToBePromoted;
    }

    /** A new object: its fields NIL, its flags word naming its type.  The source
        leaves the flags word to its callers, who fill it in at once. */
    method Fill(op: int, lw: int, ct: int)
      requires lw >= 1 && 0 <= op && op + lw <= elder.mem.Length
      modifies elder.mem
      ensures Blank(old(elder.mem[..]), elder.mem[..], op, lw, false, ct)
    {
      var lp := op + lw - 1;
      while lp > op
        invariant op <= lp < op + lw
        invariant forall k :: lp < k < op + lw ==> elder.mem[k] == Ref(NIL)
        invariant forall k :: 0 <= k < elder.mem.Length && (k <= lp || op + lw <= k) ==> elder.mem[k] == old(elder.mem[k])
      {
        elder.mem[lp] := Ref(NIL);
        lp := lp - 1;
      }
      elder.mem[op] := Head(lw, false, ct);
    }

    /** An object of `lw` words, all its fields NIL. */
    ghost predicate IsBlank(op: int, lw: int)
      reads elder.mem
    {
      0 <= op && op + lw <= elder.mem.Length && lw >= 1 && elder.mem[op].Head? && elder.mem[op].size == lw
      && forall k :: op < k < op + lw ==> elder.mem[k] == Ref(NIL)
    }

    lemma TypeGood(i: int)
      requires Between() && 0 <= i < roots.Length && TypeRef(roots[i])
      ensures roots[i] != NIL && GoodRef(State(), roots[i]) && !InNew(State(), roots[i])
    {
      HealthyParts(State());
      assert State().roots[i] == roots[i];
    }

    /** gc_malloc_old: false when there is no room even after both collections,
        or none may be run.  `s` is the heap when the object is allocated, and
        `moved` where the objects kept are in it. */
    method GcMallocOld(lw: int, remember: bool, ctRoot: int, inhibit: bool)
      returns (op: int, ok: bool, ghost s: Before, ghost moved: map<int, int>)
      requires Valid() && lw >= 1 && 0 <= ctRoot < roots.Length && TypeRef(roots[ctRoot])
      modifies this, elder, elder.mem, roots
      ensures ok ==> Valid() && op in olds && olds[op] == lw && IsBlank(op, lw) && (remember ==> op in elder.remSet)
      ensures if ok then NewOld(s, State(), op, lw, remember, ctRoot) else s == State() && Between()
      ensures !ok ==> inhibit || elder.oldEnd - elder.nextGen - wordsToBePromoted < lw
      ensures Survival.Moved(old(State()), s, moved)
      ensures inhibit || old(elder.oldEnd - elder.nextGen - wordsToBePromoted) >= lw ==> Untouched(old(State()), s, moved) && nGCs == old(nGCs)
      ensures !inhibit && old(elder.oldEnd - elder.nextGen - wordsToBePromoted) < lw ==> nGCs == old(nGCs) + 1
      ensures !inhibit && old(elder.oldEnd - elder.nextGen - wordsToBePromoted) < lw && !Survival.GatheredTwice(old(State()), s, moved)
              ==> !ok && elder.oldEnd - elder.nextGen < wordsToBePromoted
      ensures !Untouched(old(State()), s, moved) ==>
                nGCs == old(nGCs) + 1
                && (Survival.GatheredTwice(old(State()), s, moved) || (!ok && Survival.Gathered(old(State()), s, moved)))
    {
      hide Healthy, Allowance, Collected, Survival.Moved, Survival.OldDone, Survival.Gathered, Untouched;
      ok := true;
      ghost var s0 := State();
      s, moved := s0, Survival.InPlaceAll(s0);
      StaysPut(s0);
      if elder.oldEnd - elder.nextGen - wordsToBePromoted < lw {
        if inhibit {
          return 0, false, s, moved;
        }
        ok, moved := Gcollect();
        s := State();
        if !ok {
          return 0, false, s, moved;
        }
        CollectOld();
        ghost var m := Survival.AfterOld(s, elder.plan.live, elder.to);
        assert Survival.OldGathered(s, State(), m);
        assert Survival.GatheredOn(s, State(), moved, Survival.Then(moved, m));
        s, moved := State(), Survival.Then(moved, m);
        Survival.GatheredTwiceMoves(s0, s, moved);
        if elder.oldEnd - elder.nextGen - wordsToBePromoted < lw {
          return 0, false, s, moved;
        }
      }
      op := AllocateOld(lw, remember, ctRoot);
    }

    static ghost predicate Untouched(y: Before, s: Before, moved: map<int, int>) {
      s == y && moved == Survival.InPlaceAll(y)
    }

    static lemma StaysPut(y: Before)
      requires Healthy(y)
      ensures Survival.Moved(y, y, Survival.InPlaceAll(y)) && Untouched(y, y, Survival.InPlaceAll(y))
    {
      Survival.Unmoved(y);
    }

    /** `v` is `s` with one more old object, where there was none. */
    static ghost predicate NewOld(s: Before, v: Before, op: int, lw: int, remember: bool, ctRoot: int) {
      && op == s.ohi && op !in s.olds && op !in s.young && 0 <= ctRoot < |s.roots|
      && Blank(s.m, v.m, op, lw, remember, s.roots[ctRoot])
      && v == WithOld(s, v.m, lw, if remember then s.rem + [op] else s.rem)
    }

    /** `v` is `s` with one more young object, where there was none. */
    static ghost predicate NewYoung(s: Before, v: Before, op: int, lw: int, ctRoot: int) {
      && op == YoungPlace(s, lw) && op !in s.olds && op !in s.young && 0 <= ctRoot < |s.roots|
      && Blank(s.m, v.m, op, lw, false, s.roots[ctRoot])
      && v == WithYoung(s, v.m, lw)
    }

    /** Word by word, of either: the fields are NIL, and everything else is as it was. */
    static lemma NewMeans(s: Before, v: Before, op: int, lw: int, remember: bool, ctRoot: int)
      requires NewOld(s, v, op, lw, remember, ctRoot) || (NewYoung(s, v, op, lw, ctRoot) && !remember)
      ensures 0 <= ctRoot < |s.roots| && lw >= 1 && 0 <= op && op + lw <= |s.m| == |v.m| && v.m[op] == Head(lw, remember, s.roots[ctRoot])
      ensures forall k :: op < k < op + lw ==> v.m[k] == Ref(-1)
      ensures forall k :: 0 <= k < |s.m| && (k < op || op + lw <= k) ==> v.m[k] == s.m[k]
      ensures op !in s.young && op !in s.olds && v.roots == s.roots && v.table == s.table && v.rem == if remember then s.rem + [op] else s.rem
    {
    }

    static lemma NewWhere(s: Before, v: Before, op: int, lw: int, ctRoot: int)
      ensures forall remember :: NewOld(s, v, op, lw, remember, ctRoot) ==> op == s.ohi && v.ohi == op + lw && v.olds == s.olds[op := lw] && v.young == s.young
      ensures NewYoung(s, v, op, lw, ctRoot) ==> v.young == s.young[op := lw] && v.olds == s.olds && v.mid == s.mid
      ensures NewYoung(s, v, op, lw, ctRoot) ==> if s.low then op == v.flo == s.flo - lw && v.fhi == s.fhi else op == s.fhi && v.fhi == op + lw && v.flo == s.flo
    {
    }

    method AllocateOld(lw: int, remember: bool, ctRoot: int) returns (op: int)
      requires Valid() && lw >= 1 && 0 <= ctRoot < roots.Length && TypeRef(roots[ctRoot])
      requires elder.oldEnd - elder.nextGen - wordsToBePromoted >= lw
      modifies this`olds, elder`nextGen, elder`remSet, elder.mem
      ensures Valid() && op in olds && olds[op] == lw && IsBlank(op, lw) && (remember ==> op in elder.remSet)
      ensures NewOld(old(State()), State(), op, lw, remember, ctRoot)
    {
      hide Healthy, Allowance, FreshWords, SurvivorWords, Blank;
      ghost var s0, ct := State(), roots[ctRoot];
      TypeGood(ctRoot);
      RoomOld(s0, lw);
      op := TakeOld(lw, remember, ct, ctRoot);
      OldHealthy(s0, elder.mem[..], lw, remember, ct);
      OldWords(s0, elder.mem[..], lw, elder.remSet);
      FreeOld(s0, elder.mem[..], lw, remember, ct);
      olds := olds[op := lw];
      assert State() == WithOld(s0, elder.mem[..], lw, elder.remSet);
    }

    method TakeOld(lw: int, remember: bool, ghost ct: int, ctRoot: int) returns (op: int)
      requires lw >= 1 && 0 <= elder.nextGen && elder.nextGen + lw <= elder.mem.Length && 0 <= ctRoot < roots.Length && ct == roots[ctRoot]
      modifies elder`nextGen, elder`remSet, elder.mem
      ensures op == old(elder.nextGen) && elder.nextGen == op + lw
      ensures elder.remSet == if remember then old(elder.remSet) + [op] else old(elder.remSet)
      ensures Blank(old(elder.mem[..]), elder.mem[..], op, lw, remember, ct) && IsBlank(op, lw)
    {
      op := elder.nextGen;
      elder.nextGen := elder.nextGen + lw;
      Fill(op, lw, roots[ctRoot]);
      if remember {
        ghost var m := elder.mem[..];
        NewRemSet(op);
        BlankMarked(old(elder.mem[..]), m, elder.mem[..], op, lw, ct);
      }
    }

    static lemma OldWords(s0: Before, m: seq<Word>, lw: int, rem: seq<int>)
      ensures var s := WithOld(s0, m, lw, rem);
              FreshWords(s) == FreshWords(s0) && SurvivorWords(s) == SurvivorWords(s0)
    {
    }

    static lemma FreeOld(s0: Before, m: seq<Word>, lw: int, remember: bool, ct: int)
      requires Healthy(s0) && lw >= 1 && s0.ohi + lw <= s0.olimit && Blank(s0.m, m, s0.ohi, lw, remember, ct)
      ensures s0.ohi !in s0.olds && s0.ohi !in s0.young
    {
      OldMore(s0, m, lw, remember, ct);
    }

    static lemma RoomOld(s0: Before, lw: int)
      requires Healthy(s0) && lw >= 1 && s0.olimit - s0.ohi - SurvivorWords(s0) >= lw
      ensures s0.ohi + lw <= s0.olimit <= |s0.m| && 1 <= s0.ohi
    {
    }

    static lemma BlankMarked(m: seq<Word>, m1: seq<Word>, m2: seq<Word>, op: int, n: int, ct: int)
      requires Blank(m, m1, op, n, false, ct) && m2 == m1[op := m1[op].(mark := true)]
      ensures Blank(m, m2, op, n, true, ct)
    {
    }

    /** gc_malloc: an object of no more than a generation takes at most one
        collection; false when the VM has run out of memory.  `s` is the heap
        when the object is allocated, and `moved` where the objects kept are in it. */
    method GcMalloc(lw: int, ctRoot: int, inhibit: bool) returns (op: int, ok: bool, ghost s: Before, ghost moved: map<int, int>)
      requires Valid() && lw >= 1 && 0 <= ctRoot < roots.Length && TypeRef(roots[ctRoot])
      modifies this, elder, elder.mem, roots
      ensures ok ==> Valid() && IsBlank(op, lw)
      ensures !inhibit && lw <= wordsPerGeneration ==> nGCs <= old(nGCs) + 1 && (ok ==> op in young && young[op] == lw) && (ok <==> Valid())
      ensures !inhibit && lw <= wordsPerGeneration && lw <= old(wordsLeft) ==> ok && nGCs == old(nGCs)
      ensures ok && (inhibit || lw > wordsPerGeneration) ==> op in olds && olds[op] == lw
      ensures if !ok then s == State() && Between()
              else if inhibit || lw > wordsPerGeneration then NewOld(s, State(), op, lw, false, ctRoot) else NewYoung(s, State(), op, lw, ctRoot)
      ensures Survival.Moved(old(State()), s, moved)
      ensures nGCs == old(nGCs) ==> Untouched(old(State()), s, moved)
      ensures !inhibit && lw <= wordsPerGeneration && nGCs != old(nGCs) ==> Survival.Gathered(old(State()), s, moved)
    {
      hide Healthy, Allowance, Survival.Moved, Survival.Gathered, Untouched, NewOld, NewYoung;
      if inhibit || lw > wordsPerGeneration {
        op, ok, s, moved := GcMallocOld(lw, false, ctRoot, inhibit);
        return;
      }
      ok := true;
      ghost var s0 := State();
      s, moved := s0, Survival.InPlaceAll(s0);
      StaysPut(s0);
      while wordsLeft < lw
        invariant Valid() && TypeRef(roots[ctRoot]) && s == State() && Survival.Moved(s0, s, moved)
        invariant if nGCs == old(nGCs) then wordsLeft == old(wordsLeft) && Untouched(s0, s, moved)
                  else nGCs == old(nGCs) + 1 && wordsLeft >= wordsPerGeneration && old(wordsLeft) < lw && Survival.Gathered(s0, s, moved)
        invariant s == s0 || wordsLeft >= lw
        invariant ok
        decreases wordsLeft < lw
      {
        ok, moved := Gcollect();
        s := State();
        if !ok {
          return 0, false, s, moved;
        }
      }
      op := AllocateYoung(lw, ctRoot);
    }

    method AllocateYoung(lw: int, ctRoot: int) returns (op: int)
      requires Valid() && 1 <= lw <= wordsLeft && 0 <= ctRoot < roots.Length && TypeRef(roots[ctRoot])
      modifies this`young, this`fromSpace, this`wordsLeft, elder.mem
      ensures Valid() && op in young && young[op] == lw && IsBlank(op, lw) && wordsLeft == old(wordsLeft) - lw
      ensures NewYoung(old(State()), State(), op, lw, ctRoot)
    {
      hide Healthy, FreshWords, SurvivorWords, Allowance, Blank, YoungPlace, NewYoung, WithYoung, GoodRef, InNew;
      ghost var s0, ct := State(), roots[ctRoot];
      TypeGood(ctRoot);
      AllowanceSpent(newEnd - newStart, wordsToBePromoted, FreshWords(s0), wordsLeft, wordsPerGeneration, guaranteeInterGcInterval, lw);
      RoomYoung(s0, lw, wordsLeft, wordsPerGeneration, guaranteeInterGcInterval);
      TakenAt(s0, lw);
      op := MakeYoung(lw, roots[ctRoot]);
      YoungHealthy(s0, elder.mem[..], lw, ct);
      IsNewYoung(s0, elder.mem[..], lw, ct, ctRoot);
      BlankIs(s0.m, elder.mem[..], op, lw, ct);
    }

    /** The object is taken and noted. */
    method MakeYoung(lw: int, ct: int) returns (op: int)
      requires lw >= 1 && 0 <= fromSpace <= elder.mem.Length
      requires if allocatingForward then fromSpace + lw <= elder.mem.Length else 0 <= fromSpace - lw
      modifies this`young, this`fromSpace, this`wordsLeft, elder.mem
      ensures wordsLeft == old(wordsLeft) - lw && op == YoungPlace(old(State()), lw) && op in young && young[op] == lw
      ensures Blank(old(elder.mem[..]), elder.mem[..], op, lw, false, ct) && State() == WithYoung(old(State()), elder.mem[..], lw)
    {
      hide Blank, YoungPlace, WithYoung;
      ghost var s0 := State();
      TakenAt(s0, lw);
      op := TakeYoung(lw, ct);
      young := young[op := lw];
      YoungAdded(s0, State(), elder.mem[..], op, lw);
    }

    static lemma TakenAt(s0: Before, lw: int)
      ensures YoungPlace(s0, lw) == if s0.low then s0.flo - lw else s0.fhi
    {
    }

    static lemma YoungAdded(s0: Before, s: Before, m: seq<Word>, op: int, lw: int)
      requires op == (if s0.low then s0.flo - lw else s0.fhi)
      requires s == s0.(m := m, young := s0.young[op := lw], flo := if s0.low then op else s0.flo, fhi := if s0.low then s0.fhi else op + lw)
      ensures s == WithYoung(s0, m, lw)
    {
    }

    static lemma IsNewYoung(s0: Before, m: seq<Word>, lw: int, ct: int, ctRoot: int)
      requires Healthy(s0) && Swapped(s0) && lw >= 1 && (if s0.low then s0.nlo <= s0.flo - lw else s0.fhi + lw <= s0.nhi)
      requires Blank(s0.m, m, YoungPlace(s0, lw), lw, false, ct) && 0 <= ctRoot < |s0.roots| && s0.roots[ctRoot] == ct
      ensures NewYoung(s0, WithYoung(s0, m, lw), YoungPlace(s0, lw), lw, ctRoot)
    {
      hide Blank;
      YoungLayout(s0, m, lw, ct);
    }

    /** The pointer is bumped, away from the objects there are. */
    method TakeYoung(lw: int, ct: int) returns (op: int)
      requires lw >= 1 && 0 <= fromSpace <= elder.mem.Length
      requires if allocatingForward then fromSpace + lw <= elder.mem.Length else 0 <= fromSpace - lw
      modifies this`fromSpace, this`wordsLeft, elder.mem
      ensures wordsLeft == old(wordsLeft) - lw
      ensures if allocatingForward then op == old(fromSpace) && fromSpace == op + lw else op == fromSpace == old(fromSpace) - lw
      ensures Blank(old(elder.mem[..]), elder.mem[..], op, lw, false, ct)
    {
      wordsLeft := wordsLeft - lw;
      if allocatingForward {
        op := fromSpace;
        fromSpace := fromSpace + lw;
      } else {
        fromSpace := fromSpace - lw;
        op := fromSpace;
      }
      Fill(op, lw, ct);
    }

    static lemma BlankIs(m: seq<Word>, m': seq<Word>, op: int, n: int, ct: int)
      requires Blank(m, m', op, n, false, ct)
      ensures |m'| == |m| && 0 <= op && op + n <= |m| && n >= 1 && m'[op].Head? && m'[op].size == n
      ensures forall k :: op < k < op + n ==> m'[k] == Ref(NIL)
    {
    }

    static lemma RoomYoung(s0: Before, lw: int, left: int, per: int, guarantee: bool)
      requires Healthy(s0) && 1 <= lw <= left && Swapped(s0)
      requires Allowance(s0.nhi - s0.nlo, SurvivorWords(s0), FreshWords(s0), left, per, guarantee)
      ensures if s0.low then s0.nlo <= s0.flo - lw else s0.fhi + lw <= s0.nhi
      ensures 0 <= s0.flo <= s0.fhi <= |s0.m|
      ensures 0 <= YoungPlace(s0, lw) && YoungPlace(s0, lw) + lw <= |s0.m|
    {
      AllowanceFits(s0.nhi - s0.nlo, SurvivorWords(s0), FreshWords(s0), left, per, guarantee);
    }

    /** A reference is stored into the field of an object, with stoCheck. */
    method Store(a: int, k: int, v: int)
      requires Valid() && (a in young || a in olds) && 0 <= a < elder.mem.Length
      requires a in olds && a !in young ==> elder.mem[a].Head? && elder.mem[a].ct != NIL
      requires a < k < a + (if a in young then young[a] else olds[a]) && GoodRef(State(), v)
      modifies elder`remSet, elder.mem
      ensures Valid() && k < elder.mem.Length && old(elder.mem[a].Head?) && State() == Stored(old(State()), a, k, v)
      ensures var hit := elder.oldStart <= a < elder.oldEnd && newStart <= v < newEnd && !old(elder.mem[a].mark);
              && elder.remSet == old(elder.remSet) + (if hit then [a] else [])
              && elder.mem[..] == if hit then old(elder.mem[..])[k := Ref(v)][a := old(elder.mem[a]).(mark := true)] else old(elder.mem[..])[k := Ref(v)]
      ensures elder.oldStart <= a < elder.oldEnd && newStart <= v < newEnd ==> a in elder.remSet
    {
      hide Healthy, FreshWords, SurvivorWords, Allowance, GoodRef;
      ghost var s0 := State();
      ghost var n := if a in young then young[a] else olds[a];
      Here(s0, a, n);
      StoreHealthy(s0, a, n, k, v);
      StoreNoted(s0, a, n, k, v);
      elder.mem[k] := Ref(v);
      StoCheck(a, v);
      assert State() == Stored(s0, a, k, v);
      StoredWords(s0, a, k, v);
    }

    /** An external root changes. */
    method SetRoot(i: int, v: int)
      requires Valid() && 0 <= i < roots.Length && GoodRef(State(), v)
      modifies roots
      ensures Valid() && State() == old(State()).(roots := old(State()).roots[i := v])
    {
      hide Healthy, FreshWords, SurvivorWords, Allowance, GoodRef;
      ghost var s0 := State();
      RootSet(s0, i, v);
      roots[i] := v;
      assert roots[..] == s0.roots[i := v];
      assert State() == s0.(roots := s0.roots[i := v]);
    }

    static lemma RootSet(s0: Before, i: int, v: int)
      requires Healthy(s0) && 0 <= i < |s0.roots| && GoodRef(s0, v)
      ensures var s := s0.(roots := s0.roots[i := v]);
              Healthy(s) && FreshWords(s) == FreshWords(s0) && SurvivorWords(s) == SurvivorWords(s0)
    {
      RootsHealthy(s0, s0.roots[i := v], s0.table);
    }

    /** UpdateOIDTables: an object gets an identifier, neither being in the table. */
    method EnterObject(a: int, o: int)
      requires Valid() && a !in table && !ObjectTable.Names(table, o) && GoodRef(State(), o)
      modifies this`table, this`slots
      ensures Valid() && State() == old(State()).(table := old(table)[a := o])
    {
      hide Healthy, FreshWords, SurvivorWords, Allowance, GoodRef;
      ghost var s0 := State();
      EntryAdded(s0, a, o);
      table, slots := table[a := o], slots + [a];
      assert State() == s0.(table := s0.table[a := o]);
    }

    static lemma EntryAdded(s0: Before, a: int, o: int)
      requires Healthy(s0) && a !in s0.table && !ObjectTable.Names(s0.table, o) && GoodRef(s0, o)
      ensures var s := s0.(table := s0.table[a := o]);
              Healthy(s) && FreshWords(s) == FreshWords(s0) && SurvivorWords(s) == SurvivorWords(s0)
    {
      hide GoodRef;
      HealthyParts(s0);
      assert forall b :: b in s0.table ==> s0.table[b] != o;
      RootsHealthy(s0, s0.roots, s0.table[a := o]);
      assert s0.(roots := s0.roots, table := s0.table[a := o]) == s0.(table := s0.table[a := o]);
    }

    /** OIDRemove: an object loses its identifier, if it has one. */
    method RemoveObject(o: int)
      requires Valid()
      modifies this`table, this`slots
      ensures Valid() && State() == old(State()).(table := Unnamed(old(table), o))
      ensures table == map a | a in old(table) && old(table)[a] != o :: old(table)[a]
    {
      hide Healthy, FreshWords, SurvivorWords, Allowance;
      ghost var s0 := State();
      EntryRemoved(s0, o);
      if a :| a in table && table[a] == o {
        UnnamedOne(table, a);
        table := table - {a};
        FreeSlot(a);
      } else {
        assert forall a :: a in table ==> table[a] != o;
        UnnamedNone(table, o);
      }
      assert State() == s0.(table := Unnamed(s0.table, o));
    }

    /** The slot of an identifier is used no longer. */
    method FreeSlot(a: int)
      requires Slotted() && a !in table
      modifies this`slots
      ensures Slotted() && a !in slots
    {
      ghost var was := slots;
      var used: seq<int> := [];
      var i := 0;
      while i < |slots|
        invariant 0 <= i <= |slots| && slots == was && a !in used
        invariant forall b :: b in slots[..i] && b != a ==> b in used
      {
        assert slots[..i + 1] == slots[..i] + [slots[i]];
        if slots[i] != a {
          used := used + [slots[i]];
        }
        i := i + 1;
      }
      assert slots[..|slots|] == slots;
      slots := used;
    }

    /** The object table without the identifier of an object. */
    static function Unnamed(table: map<int, int>, o: int): map<int, int> {
      map a | a in table && table[a] != o :: table[a]
    }

    static lemma UnnamedNone(table: map<int, int>, o: int)
      requires forall a :: a in table ==> table[a] != o
      ensures Unnamed(table, o) == table
    {
      forall a
        ensures a in Unnamed(table, o) <==> a in table
      {
        assert a in table ==> table[a] != o;
      }
    }

    static lemma UnnamedOne(table: map<int, int>, a: int)
      requires Distinct(table) && a in table
      ensures Unnamed(table, table[a]) == table - {a}
    {
      assert forall b :: b in table && b != a ==> table[b] != table[a];
      assert Unnamed(table, table[a]).Keys == (table - {a}).Keys;
    }

    static lemma EntryRemoved(s0: Before, o: int)
      requires Healthy(s0)
      ensures var s := s0.(table := Unnamed(s0.table, o));
              Healthy(s) && FreshWords(s) == FreshWords(s0) && SurvivorWords(s) == SurvivorWords(s0)
      ensures Distinct(s0.table)
    {
      hide GoodRef;
      HealthyParts(s0);
      RootsHealthy(s0, s0.roots, Unnamed(s0.table, o));
      assert s0.(roots := s0.roots, table := Unnamed(s0.table, o)) == s0.(table := Unnamed(s0.table, o));
    }

    static lemma StoredWords(s0: Before, a: int, k: int, v: int)
      requires 0 <= a < |s0.m| && 0 <= k < |s0.m| && s0.m[a].Head?
      ensures FreshWords(Stored(s0, a, k, v)) == FreshWords(s0) && SurvivorWords(Stored(s0, a, k, v)) == SurvivorWords(s0)
    {
    }

    static lemma Here(s0: Before, a: int, n: int)
      requires (a in s0.young && s0.young[a] == n) || (a in s0.olds && s0.olds[a] == n && 0 <= a < |s0.m| && s0.m[a].Head? && s0.m[a].ct != NIL)
      ensures IsHere(s0, a, n)
    {
    }

    static lemma StoreNoted(s0: Before, a: int, n: int, k: int, v: int)
      requires Healthy(s0) && IsHere(s0, a, n) && a < k < a + n && 0 <= a && k < |s0.m| && s0.m[a].Head?
      ensures s0.olo <= a < s0.olimit ==> (s0.m[a].mark <==> a in s0.rem)
    {
      StoreAt(s0, a, n, k);
    }

    /** stoCheck. */
    method StoCheck(intoObj: int, storedObj: int)
      requires 0 <= intoObj < elder.mem.Length && elder.mem[intoObj].Head?
      modifies elder`remSet, elder.mem
      ensures var hit := elder.oldStart <= intoObj < elder.oldEnd && newStart <= storedObj < newEnd && !old(elder.mem[intoObj].mark);
              && elder.remSet == old(elder.remSet) + (if hit then [intoObj] else [])
              && elder.mem[..] == if hit then old(elder.mem[..])[intoObj := old(elder.mem[intoObj]).(mark := true)] else old(elder.mem[..])
    {
      if elder.oldStart <= intoObj < elder.oldEnd && IsNew(storedObj) {
        ghost var m := elder.mem[..];
        NewRemSet(intoObj);
        assert m[intoObj].mark ==> elder.mem[..] == m;
      }
    }
  }
}
