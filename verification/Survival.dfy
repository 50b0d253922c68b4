/** What becomes of the whole heap when the program allocates (vm/gc.c):
    collections of either generation, one after the other, amount to a single
    one-to-one renaming of the objects that are left. */
module Survival {
  import opened Heap
  import opened CompactionPlan
  import opened Copying
  import opened CopyDone
  import opened BothGenerations
  import Marking
  import OldCollection

  // ----- objects of either generation -----

  ghost predicate Exists(y: Before, a: int) {
    a in y.young || IsOld(y, a)
  }

  ghost function Size(y: Before, a: int): int
    requires Exists(y, a)
  {
    if a in y.young then y.young[a] else y.olds[a]
  }

  /** An address in one of the generations. */
  predicate Inside(y: Before, r: int) {
    InNew(y, r) || y.olo <= r < y.olimit
  }

  /** Object `a` is at the place `to` gives: same size, its type and references
      renamed, its data unchanged. */
  ghost predicate Transferred(y: Before, v: Before, to: map<int, int>, a: int) {
    && a in to && Exists(y, a) && Exists(v, to[a]) && var t, n := to[a], Size(y, a);
    && Size(v, t) == n >= 1 && 0 <= a && a + n <= |y.m| && 0 <= t && t + n <= |v.m|
    && y.m[a].Head? && v.m[t].Head? && v.m[t].size == y.m[a].size == n && v.m[t].ct == Renamed(to, y.m[a].ct)
    && (forall k :: t < k < t + n ==> v.m[k] == MapWord(to, y.m[k - t + a]))
  }

  /** What object `a` refers to is kept. */
  ghost predicate Holds(y: Before, to: map<int, int>, a: int) {
    Exists(y, a) ==> forall k :: a <= k < a + Size(y, a) && 0 <= k < |y.m| && Inside(y, RefOf(y.m[k])) ==> RefOf(y.m[k]) in to
  }

  ghost predicate SameBounds(y: Before, v: Before) {
    |v.m| == |y.m| && v.nlo == y.nlo && v.nhi == y.nhi && v.olo == y.olo && v.olimit == y.olimit
  }

  ghost predicate RootsFollow(y: Before, v: Before, to: map<int, int>) {
    |v.roots| == |y.roots| && forall i :: 0 <= i < |y.roots| ==> v.roots[i] == Renamed(to, y.roots[i]) && (Inside(y, y.roots[i]) ==> y.roots[i] in to)
  }

  ghost predicate Named(y: Before, to: map<int, int>, o: int) {
    o in y.table && (Inside(y, y.table[o]) ==> y.table[o] in to)
  }

  /** The identifiers of the objects kept still name them, and no others are left. */
  ghost predicate TableFollows(y: Before, v: Before, to: map<int, int>) {
    forall o :: (o in v.table <==> Named(y, to, o)) && (o in v.table ==> v.table[o] == Renamed(to, y.table[o]))
  }

  ghost predicate Injective(to: map<int, int>) {
    forall a, b :: a in to && b in to && a != b ==> to[a] != to[b]
  }

  /** `v` is `y` with just the objects in `to` kept, each in one place under
      which roots, object table and objects refer to it.  Nothing that is kept
      refers to anything that is not. */
  ghost predicate Moved(y: Before, v: Before, to: map<int, int>) {
    && SameBounds(y, v) && Injective(to)
    && (forall a {:trigger Transferred(y, v, to, a)} :: a in to ==> Transferred(y, v, to, a))
    && (forall a {:trigger Holds(y, to, a)} :: a in to ==> Holds(y, to, a))
    && (forall t :: Exists(v, t) ==> IsTarget(to, t))
    && RootsFollow(y, v, to) && TableFollows(y, v, to)
  }

  // ----- nothing reachable is lost -----

  /** `x` contains what the roots refer to and is closed under references. */
  ghost predicate ClosedUnder(y: Before, x: set<int>) {
    && (forall i :: 0 <= i < |y.roots| && Inside(y, y.roots[i]) ==> y.roots[i] in x)
    && (forall a, k :: a in x && Exists(y, a) && a <= k < a + Size(y, a) && 0 <= k < |y.m| && Inside(y, RefOf(y.m[k])) ==> RefOf(y.m[k]) in x)
  }

  ghost predicate Alive(y: Before, a: int) {
    forall x: set<int> :: ClosedUnder(y, x) ==> a in x
  }

  /** What a root names is alive, and what a living object's type or field names. */
  lemma AliveMeans(y: Before)
    ensures forall i :: 0 <= i < |y.roots| && (y.nlo <= y.roots[i] < y.nhi || y.olo <= y.roots[i] < y.olimit) ==> Alive(y, y.roots[i])
  {
  }

  lemma AliveTarget(y: Before, a: int, n: int, k: int, r: int)
    requires Alive(y, a) && (a in y.young || (a in y.olds && 0 <= a < |y.m| && y.m[a].Head? && y.m[a].ct != -1))
    requires n == (if a in y.young then y.young[a] else y.olds[a]) && 0 <= a <= k < a + n && k < |y.m|
    requires (y.m[k].Ref? && y.m[k].target == r) || (y.m[k].Head? && y.m[k].ct == r)
    requires y.nlo <= r < y.nhi || y.olo <= r < y.olimit
    ensures Alive(y, r)
  {
    assert Exists(y, a) && Size(y, a) == n && RefOf(y.m[k]) == r && Inside(y, r);
    forall x: set<int> | ClosedUnder(y, x)
      ensures r in x
    {
      assert a in x;
    }
  }

  /** Word by word: at its one new place an object has its size, its type and
      fields name the new places of what they named, which is kept too, and its
      data are the same. */
  lemma MovedMeans(y: Before, v: Before, to: map<int, int>, a: int, n: int)
    requires Moved(y, v, to) && a in to && n == if a in y.young then y.young[a] else if a in y.olds then y.olds[a] else 0
    ensures n >= 1 && 0 <= a && a + n <= |y.m| && 0 <= to[a] && to[a] + n <= |v.m| && y.m[a].Head? && v.m[to[a]].Head?
    ensures (to[a] in v.young && v.young[to[a]] == n) || (to[a] in v.olds && v.olds[to[a]] == n && v.m[to[a]].ct != -1)
    ensures v.m[to[a]].size == n && v.m[to[a]].ct == if y.m[a].ct in to then to[y.m[a].ct] else y.m[a].ct
    ensures y.nlo <= y.m[a].ct < y.nhi || y.olo <= y.m[a].ct < y.olimit ==> y.m[a].ct in to
    ensures forall k :: a < k < a + n && y.m[k].Ref? ==> v.m[k - a + to[a]] == Ref(if y.m[k].target in to then to[y.m[k].target] else y.m[k].target)
    ensures forall k :: a < k < a + n && y.m[k].Ref? && (y.nlo <= y.m[k].target < y.nhi || y.olo <= y.m[k].target < y.olimit) ==> y.m[k].target in to
    ensures forall k :: a < k < a + n && y.m[k].Data? ==> v.m[k - a + to[a]] == y.m[k]
    ensures forall b :: b in to && b != a ==> to[b] != to[a]
  {
    assert Transferred(y, v, to, a) && Holds(y, to, a);
    BodyMeans(y.m, v.m, to, a, to[a], n);
  }

  /** Roots and identifiers name the new places of what they named; the roots'
      objects are kept, an identifier lasts as long as its object, and there are
      no objects but those kept. */
  lemma MovedRoots(y: Before, v: Before, to: map<int, int>)
    requires Moved(y, v, to)
    ensures |v.roots| == |y.roots|
    ensures forall i :: 0 <= i < |y.roots| ==> v.roots[i] == if y.roots[i] in to then to[y.roots[i]] else y.roots[i]
    ensures forall i :: 0 <= i < |y.roots| && (y.nlo <= y.roots[i] < y.nhi || y.olo <= y.roots[i] < y.olimit) ==> y.roots[i] in to
    ensures forall o :: o in v.table <==> o in y.table && (y.nlo <= y.table[o] < y.nhi || y.olo <= y.table[o] < y.olimit ==> y.table[o] in to)
    ensures forall o :: o in v.table ==> v.table[o] == if y.table[o] in to then to[y.table[o]] else y.table[o]
    ensures forall t :: t in v.young || (t in v.olds && 0 <= t < |v.m| && v.m[t].Head? && v.m[t].ct != -1) ==> t in to.Values
  {
    hide Transferred, Holds;
    forall o
      ensures o in v.table <==> Named(y, to, o)
      ensures o in v.table ==> v.table[o] == Renamed(to, y.table[o])
    {
    }
    forall t | t in v.young || (t in v.olds && 0 <= t < |v.m| && v.m[t].Head? && v.m[t].ct != -1)
      ensures t in to.Values
    {
      assert Exists(v, t);
      assert IsTarget(to, t);
    }
  }

  lemma NothingLost(y: Before, v: Before, to: map<int, int>)
    requires Moved(y, v, to)
    ensures forall a :: Alive(y, a) ==> a in to
  {
    hide Inside, Transferred;
    forall a, k | a in to.Keys && Exists(y, a) && a <= k < a + Size(y, a) && 0 <= k < |y.m| && Inside(y, RefOf(y.m[k]))
      ensures RefOf(y.m[k]) in to.Keys
    {
      assert Holds(y, to, a);
    }
    assert ClosedUnder(y, to.Keys);
  }

  // ----- nothing at all happens -----

  lemma WhereOld(y: Before, a: int)
    requires Healthy(y) && IsOld(y, a)
    ensures y.olo <= a < y.ohi <= y.olimit <= y.nlo && 1 <= a && a + y.olds[a] <= |y.m| && y.olds[a] >= 1
    ensures a !in y.young && y.m[a].size == y.olds[a] && !InNew(y, a) && !InNew(y, y.m[a].ct)
  {
    assert y.olo <= a < a + y.olds[a] <= y.ohi;
    assert GoodWords(y, a, y.olds[a]);
    assert RefOf(y.m[a]) == y.m[a].ct;
  }

  lemma WhereYoung(y: Before, a: int)
    requires Healthy(y) && a in y.young
    ensures y.flo <= a < a + y.young[a] <= y.fhi <= |y.m| && 1 <= a && InNew(y, a)
    ensures !IsOld(y, a) && y.m[a].Head? && y.m[a].size == y.young[a] && !InNew(y, y.m[a].ct)
  {
    YoungRange(y, a);
    assert RefOf(y.m[a]) == y.m[a].ct;
  }

  /** Every reference of an object is to an object or to outside. */
  lemma RefsExist(y: Before, a: int)
    requires Healthy(y) && Exists(y, a)
    ensures forall k :: a <= k < a + Size(y, a) && 0 <= k < |y.m| ==> GoodRef(y, RefOf(y.m[k]))
    ensures forall k :: a < k < a + Size(y, a) && 0 <= k < |y.m| ==> IsField(y.m[k])
    ensures 0 <= a < |y.m| && y.m[a].Head? && y.m[a].size == Size(y, a)
  {
    hide GoodRef;
    if a in y.young {
      WhereYoung(y, a);
      assert GoodWords(y, a, y.young[a]);
    } else {
      WhereOld(y, a);
      assert GoodWords(y, a, y.olds[a]);
    }
  }

  lemma GoodExists(y: Before, r: int)
    requires GoodRef(y, r) && Inside(y, r)
    ensures Exists(y, r)
  {
  }

  /** The objects where they are. */
  ghost function InPlaceAll(y: Before): map<int, int> {
    map a | a in y.young.Keys + y.olds.Keys && Exists(y, a) :: a
  }

  lemma SameWords(y: Before, to: map<int, int>)
    requires forall b :: b in to ==> to[b] == b
    ensures forall k :: 0 <= k < |y.m| ==> MapWord(to, y.m[k]) == y.m[k]
  {
  }

  lemma UnmovedObject(y: Before, a: int)
    requires Healthy(y) && a in InPlaceAll(y)
    ensures Transferred(y, y, InPlaceAll(y), a) && Holds(y, InPlaceAll(y), a)
  {
    hide GoodRef, Inside, IsOld, Healthy, Exists;
    var to := InPlaceAll(y);
    Here(y, a);
    RefsExist(y, a);
    AnyRange(y, a);
    SameWords(y, to);
    forall k | a <= k < a + Size(y, a) && 0 <= k < |y.m| && Inside(y, RefOf(y.m[k]))
      ensures RefOf(y.m[k]) in to
    {
      GoodExists(y, RefOf(y.m[k]));
      Present(y, RefOf(y.m[k]));
    }
    SameRef(to, y.m[a].ct);
  }

  lemma SameRef(to: map<int, int>, r: int)
    requires forall b :: b in to ==> to[b] == b
    ensures Renamed(to, r) == r
  {
  }

  lemma Here(y: Before, a: int)
    requires a in InPlaceAll(y)
    ensures Exists(y, a)
    ensures forall b :: b in InPlaceAll(y) ==> InPlaceAll(y)[b] == b
  {
  }

  lemma Present(y: Before, a: int)
    requires Exists(y, a)
    ensures a in InPlaceAll(y) && InPlaceAll(y)[a] == a
  {
  }

  lemma Unmoved(y: Before)
    requires Healthy(y)
    ensures Moved(y, y, InPlaceAll(y))
  {
    hide Inside, Healthy, InPlaceAll, Exists, Transferred, Holds;
    var to := InPlaceAll(y);
    forall a | a in to
      ensures Transferred(y, y, to, a) && Holds(y, to, a) && to[a] == a
    {
      UnmovedObject(y, a);
      Here(y, a);
    }
    forall t | Exists(y, t)
      ensures IsTarget(to, t)
    {
      Present(y, t);
      assert to[t] == t;
    }
    RootsExist(y);
    forall i | 0 <= i < |y.roots| && Inside(y, y.roots[i])
      ensures y.roots[i] in to
    {
      Present(y, y.roots[i]);
    }
    forall o | o in y.table
      ensures Named(y, to, o)
    {
      if Inside(y, y.table[o]) {
        Present(y, y.table[o]);
      }
    }
  }

  lemma OldKeys(y: Before, a: int)
    requires Exists(y, a)
    ensures a in y.young.Keys + y.olds.Keys
  {
  }

  lemma AnyRange(y: Before, a: int)
    requires Healthy(y) && Exists(y, a)
    ensures 1 <= a && a + Size(y, a) <= |y.m| && Size(y, a) >= 1 && Inside(y, a)
  {
    if a in y.young {
      WhereYoung(y, a);
    } else {
      WhereOld(y, a);
    }
  }

  lemma RootsExist(y: Before)
    requires Healthy(y)
    ensures forall i :: 0 <= i < |y.roots| && Inside(y, y.roots[i]) ==> Exists(y, y.roots[i])
    ensures forall o :: o in y.table && Inside(y, y.table[o]) ==> Exists(y, y.table[o])
  {
    hide GoodRef, Inside, IsOld;
    forall i | 0 <= i < |y.roots| && Inside(y, y.roots[i])
      ensures Exists(y, y.roots[i])
    {
      GoodExists(y, y.roots[i]);
    }
    forall o | o in y.table && Inside(y, y.table[o])
      ensures Exists(y, y.table[o])
    {
      GoodExists(y, y.table[o]);
    }
  }

  // ----- one collection after another -----

  function Then(to: map<int, int>, to': map<int, int>): map<int, int> {
    map a | a in to && to[a] in to' :: to'[to[a]]
  }

  /** A reference of something that is kept twice. */
  lemma RefThen(y: Before, x: Before, to: map<int, int>, to': map<int, int>, r: int)
    requires SameBounds(y, x) && (Inside(y, r) ==> r in to) && (Inside(x, Renamed(to, r)) ==> Renamed(to, r) in to')
    requires forall a :: a in to ==> Inside(y, a) && Inside(x, to[a])
    requires forall a :: a in to' ==> Inside(x, a)
    ensures Renamed(Then(to, to'), r) == Renamed(to', Renamed(to, r))
    ensures Inside(y, r) ==> r in Then(to, to')
  {
  }

  lemma MovedInside(y: Before, x: Before, to: map<int, int>)
    requires Moved(y, x, to) && Healthy(y) && Healthy(x)
    ensures forall a :: a in to ==> Inside(y, a) && Inside(x, to[a])
  {
    hide Inside, IsOld, Healthy;
    forall a | a in to
      ensures Inside(y, a) && Inside(x, to[a])
    {
      assert Transferred(y, x, to, a);
      AnyRange(y, a);
      AnyRange(x, to[a]);
    }
  }

  lemma WordThen(y: Before, x: Before, to: map<int, int>, to': map<int, int>, w: Word)
    requires Renamed(Then(to, to'), RefOf(w)) == Renamed(to', Renamed(to, RefOf(w)))
    ensures MapWord(Then(to, to'), w) == MapWord(to', MapWord(to, w))
    ensures !w.Forward? && !w.Link? && NIL !in to ==> RefOf(MapWord(to, w)) == Renamed(to, RefOf(w))
  {
  }

  lemma BroughtThen(y: Before, x: Before, v: Before, to: map<int, int>, to': map<int, int>, a: int)
    requires Moved(y, x, to) && Moved(x, v, to') && Healthy(y) && Healthy(x) && Healthy(v) && a in Then(to, to')
    ensures Transferred(y, v, Then(to, to'), a) && Holds(y, Then(to, to'), a)
  {
    hide Inside, IsOld, Healthy, Then, Moved, Exists, GoodRef;
    ThenParts(y, x, v, to, to', a);
    var b := to[a];
    forall k | a <= k < a + Size(y, a)
      ensures 0 <= k < |y.m| && 0 <= k - a + b < |x.m|
      ensures Renamed(Then(to, to'), RefOf(y.m[k])) == Renamed(to', Renamed(to, RefOf(y.m[k])))
      ensures Inside(y, RefOf(y.m[k])) ==> RefOf(y.m[k]) in Then(to, to')
      ensures RefOf(x.m[k - a + b]) == Renamed(to, RefOf(y.m[k]))
    {
      RefsThen(y, x, v, to, to', a, k);
    }
    WordsThen(y, x, v, to, to', a);
  }

  lemma ThenParts(y: Before, x: Before, v: Before, to: map<int, int>, to': map<int, int>, a: int)
    requires Moved(y, x, to) && Moved(x, v, to') && a in Then(to, to')
    ensures a in to && to[a] in to' && Then(to, to')[a] == to'[to[a]] && Transferred(y, x, to, a) && Transferred(x, v, to', to[a])
    ensures Holds(y, to, a) && Holds(x, to', to[a])
  {
  }

  lemma RefsThen(y: Before, x: Before, v: Before, to: map<int, int>, to': map<int, int>, a: int, k: int)
    requires Moved(y, x, to) && Moved(x, v, to') && Healthy(y) && Healthy(x) && Healthy(v) && a in Then(to, to')
    requires Exists(y, a) && a <= k < a + Size(y, a)
    ensures a in to && 0 <= k < |y.m| && 0 <= k - a + to[a] < |x.m|
    ensures Renamed(Then(to, to'), RefOf(y.m[k])) == Renamed(to', Renamed(to, RefOf(y.m[k])))
    ensures Inside(y, RefOf(y.m[k])) ==> RefOf(y.m[k]) in Then(to, to')
    ensures RefOf(x.m[k - a + to[a]]) == Renamed(to, RefOf(y.m[k]))
  {
    hide Inside, IsOld, Healthy, Then, Moved, Exists, GoodRef;
    ThenParts(y, x, v, to, to', a);
    MovedInside(y, x, to);
    MovedInside(x, v, to');
    BoundsOfMoved(y, x, to);
    NilOutside(y);
    var j := k - a + to[a];
    assert k > a ==> x.m[j] == MapWord(to, y.m[k - a + to[a] - to[a] + a]);
    if k > a {
      RefsExist(y, a);
      assert IsField(y.m[k]);
    }
    assert Holds(x, to', to[a]);
    assert RefOf(x.m[j]) == Renamed(to, RefOf(y.m[k]));
    RefThen(y, x, to, to', RefOf(y.m[k]));
  }

  lemma NilOutside(y: Before)
    requires Healthy(y)
    ensures !Inside(y, NIL)
  {
  }

  lemma BoundsOfMoved(y: Before, x: Before, to: map<int, int>)
    requires Moved(y, x, to)
    ensures SameBounds(y, x)
  {
  }

  lemma WordsThen(y: Before, x: Before, v: Before, to: map<int, int>, to': map<int, int>, a: int)
    requires a in to && to[a] in to' && a in Then(to, to') && Then(to, to')[a] == to'[to[a]]
    requires Transferred(y, x, to, a) && Transferred(x, v, to', to[a])
    requires forall k :: a <= k < a + Size(y, a) ==> Renamed(Then(to, to'), RefOf(y.m[k])) == Renamed(to', Renamed(to, RefOf(y.m[k])))
    ensures Transferred(y, v, Then(to, to'), a)
  {
    hide Exists, IsOld, Then;
    var b, t := to[a], to'[to[a]];
    forall k | t < k < t + Size(y, a)
      ensures v.m[k] == MapWord(Then(to, to'), y.m[k - t + a])
    {
      var j := k - t + b;
      assert v.m[k] == MapWord(to', x.m[j]);
      assert x.m[j] == MapWord(to, y.m[j - b + a]);
      assert j - b + a == k - t + a;
      WordThen(y, x, to, to', y.m[k - t + a]);
    }
    assert RefOf(y.m[a]) == y.m[a].ct;
  }

  lemma RootsThen(y: Before, x: Before, v: Before, to: map<int, int>, to': map<int, int>)
    requires Moved(y, x, to) && Moved(x, v, to') && Healthy(y) && Healthy(x) && Healthy(v)
    ensures RootsFollow(y, v, Then(to, to')) && TableFollows(y, v, Then(to, to'))
  {
    hide Inside, Healthy, Then, Transferred, Holds, Exists;
    MovedInside(y, x, to);
    MovedInside(x, v, to');
    forall i | 0 <= i < |y.roots|
      ensures v.roots[i] == Renamed(Then(to, to'), y.roots[i]) && (Inside(y, y.roots[i]) ==> y.roots[i] in Then(to, to'))
    {
      RefThen(y, x, to, to', y.roots[i]);
    }
    forall o
      ensures o in v.table <==> Named(y, Then(to, to'), o)
      ensures o in v.table ==> v.table[o] == Renamed(Then(to, to'), y.table[o])
    {
      EntryThen(y, x, v, to, to', o);
    }
  }

  lemma EntryThen(y: Before, x: Before, v: Before, to: map<int, int>, to': map<int, int>, o: int)
    requires SameBounds(y, x) && TableFollows(y, x, to) && TableFollows(x, v, to')
    requires forall a :: a in to ==> Inside(y, a) && Inside(x, to[a])
    requires forall a :: a in to' ==> Inside(x, a)
    ensures o in v.table <==> Named(y, Then(to, to'), o)
    ensures o in v.table ==> v.table[o] == Renamed(Then(to, to'), y.table[o])
  {
    if o in v.table {
      assert Named(x, to', o) && o in x.table && Named(y, to, o);
      RefThen(y, x, to, to', y.table[o]);
    }
    if Named(y, Then(to, to'), o) {
      assert Named(y, to, o) && o in x.table;
      assert Named(x, to', o);
    }
  }

  /** Two collections are as good as one. */
  lemma MovedThen(y: Before, x: Before, v: Before, to: map<int, int>, to': map<int, int>)
    requires Moved(y, x, to) && Moved(x, v, to') && Healthy(y) && Healthy(x) && Healthy(v)
    ensures Moved(y, v, Then(to, to'))
  {
    hide Transferred, Holds, Exists, RootsFollow, TableFollows, Healthy;
    forall a | a in Then(to, to')
      ensures Transferred(y, v, Then(to, to'), a) && Holds(y, Then(to, to'), a)
    {
      BroughtThen(y, x, v, to, to', a);
    }
    forall t | Exists(v, t)
      ensures IsTarget(Then(to, to'), t)
    {
      assert IsTarget(to', t);
      var b :| b in to' && to'[b] == t;
      assert Transferred(x, v, to', b);
      BroughtExists(x, v, to', b);
      assert IsTarget(to, b);
      var a :| a in to && to[a] == b;
      assert a in Then(to, to') && Then(to, to')[a] == t;
    }
    RootsThen(y, x, v, to, to');
  }

  lemma BroughtExists(y: Before, v: Before, to: map<int, int>, a: int)
    requires Transferred(y, v, to, a)
    ensures Exists(y, a)
  {
  }

  // ----- a young collection -----

  /** The reached young objects where they are now, and the old ones where they were. */
  ghost function AfterYoung(y: Before, to: map<int, int>): map<int, int> {
    map a | a in y.young.Keys + y.olds.Keys && Exists(y, a) && (a in to || IsOld(y, a)) :: Renamed(to, a)
  }

  /** `v` is `y` after a young collection. */
  ghost predicate YoungDone(y: Before, v: Before, to: map<int, int>) {
    Healthy(y) && Healthy(v) && SameBounds(y, v) && Relocated(y, v, to) && forall a :: a in to <==> Reached(y, a)
  }

  lemma ReachedClosed(y: Before, to: map<int, int>)
    requires forall a :: a in to <==> Reached(y, a)
    ensures Closed(y, to.Keys)
  {
    hide HoldsWords;
    forall a | a in y.rem && a in y.olds
      ensures HoldsWords(y, to.Keys, a, y.olds[a])
    {
      RemReached(y, to, a);
    }
    forall i | 0 <= i < |y.roots| && InNew(y, y.roots[i])
      ensures y.roots[i] in to.Keys
    {
      assert Reached(y, y.roots[i]);
    }
    forall o | o in y.table && InNew(y, y.table[o])
      ensures y.table[o] in to.Keys
    {
      assert Reached(y, y.table[o]);
    }
    forall a | a in to.Keys && a in y.young
      ensures HoldsWords(y, to.Keys, a, y.young[a])
    {
      FieldReached(y, to, a);
    }
  }

  lemma RemReached(y: Before, to: map<int, int>, o: int)
    requires (forall a :: a in to <==> Reached(y, a)) && o in y.rem && o in y.olds
    ensures HoldsWords(y, to.Keys, o, y.olds[o])
  {
    forall k | o <= k < o + y.olds[o] && 0 <= k < |y.m| && InNew(y, RefOf(y.m[k]))
      ensures RefOf(y.m[k]) in to.Keys
    {
      forall c: set<int> | Closed(y, c)
        ensures RefOf(y.m[k]) in c
      {
        assert HoldsWords(y, c, o, y.olds[o]);
      }
      assert Reached(y, RefOf(y.m[k]));
    }
  }

  lemma FieldReached(y: Before, to: map<int, int>, a: int)
    requires (forall a :: a in to <==> Reached(y, a)) && a in to && a in y.young
    ensures HoldsWords(y, to.Keys, a, y.young[a])
  {
    forall k | a <= k < a + y.young[a] && 0 <= k < |y.m| && InNew(y, RefOf(y.m[k]))
      ensures RefOf(y.m[k]) in to.Keys
    {
      forall c: set<int> | Closed(y, c)
        ensures RefOf(y.m[k]) in c
      {
        assert a in c && HoldsWords(y, c, a, y.young[a]);
      }
      assert Reached(y, RefOf(y.m[k]));
    }
  }

  /** Every reference of an object that is there after a young collection is
      renamed as the young objects are. */
  lemma RefAfterYoung(y: Before, v: Before, to: map<int, int>, r: int)
    requires YoungDone(y, v, to) && GoodRef(y, r) && (InNew(y, r) ==> r in to)
    ensures Renamed(AfterYoung(y, to), r) == Renamed(to, r) && (Inside(y, r) ==> r in AfterYoung(y, to))
  {
    hide Relocated, Reached, Healthy;
    YoungKeys(y, v, to);
    if Inside(y, r) {
      GoodExists(y, r);
      OldKeys(y, r);
    }
  }

  lemma YoungKeys(y: Before, v: Before, to: map<int, int>)
    requires YoungDone(y, v, to)
    ensures forall a :: a in to ==> a in y.young && !IsOld(y, a) && InNew(y, a)
  {
    forall a | a in to
      ensures a in y.young && !IsOld(y, a) && InNew(y, a)
    {
      assert CopyDone.Carried(y, v, to, a);
      WhereYoung(y, a);
    }
  }

  /** The references of a kept object are to kept objects or to outside. */
  lemma KeptRefs(y: Before, v: Before, to: map<int, int>, a: int, k: int)
    requires YoungDone(y, v, to) && a in AfterYoung(y, to) && Exists(y, a) && a <= k < a + Size(y, a)
    ensures 0 <= k < |y.m| && GoodRef(y, RefOf(y.m[k])) && (InNew(y, RefOf(y.m[k])) ==> RefOf(y.m[k]) in to)
    ensures k > a ==> IsField(y.m[k])
  {
    hide Relocated, Reached, Healthy, GoodRef, Closed, IsOld, InNew;
    RefsExist(y, a);
    AnyRange(y, a);
    ReachedClosed(y, to);
    if a in y.young {
      KeptYoung(y, v, to, a);
      assert HoldsWords(y, to.Keys, a, y.young[a]);
    } else {
      KeptOld(y, to, a);
    }
  }

  lemma KeptYoung(y: Before, v: Before, to: map<int, int>, a: int)
    requires YoungDone(y, v, to) && a in AfterYoung(y, to) && a in y.young && Closed(y, to.Keys)
    ensures HoldsWords(y, to.Keys, a, y.young[a])
  {
    WhereYoung(y, a);
  }

  lemma KeptOld(y: Before, to: map<int, int>, a: int)
    requires Healthy(y) && IsOld(y, a) && Closed(y, to.Keys)
    ensures forall k :: a <= k < a + y.olds[a] && 0 <= k < |y.m| && InNew(y, RefOf(y.m[k])) ==> RefOf(y.m[k]) in to
  {
    if a in y.rem {
      assert HoldsWords(y, to.Keys, a, y.olds[a]);
    } else {
      assert NoYoung(y, y.m, a, y.olds[a]);
    }
  }

  lemma BroughtYoung(y: Before, v: Before, to: map<int, int>, a: int)
    requires YoungDone(y, v, to) && a in AfterYoung(y, to)
    ensures Transferred(y, v, AfterYoung(y, to), a) && Holds(y, AfterYoung(y, to), a)
  {
    hide YoungDone, GoodRef, Inside, IsOld, Exists;
    ExistsBefore(y, to, a);
    PlaceYoung(y, v, to, a);
    forall k | a <= k < a + Size(y, a)
      ensures 0 <= k < |y.m| && MapWord(AfterYoung(y, to), y.m[k]) == MapWord(to, y.m[k])
      ensures Renamed(AfterYoung(y, to), RefOf(y.m[k])) == Renamed(to, RefOf(y.m[k]))
      ensures Inside(y, RefOf(y.m[k])) ==> RefOf(y.m[k]) in AfterYoung(y, to)
    {
      KeptRefs(y, v, to, a, k);
      RefAfterYoung(y, v, to, RefOf(y.m[k]));
    }
    assert RefOf(y.m[a]) == y.m[a].ct;
  }

  lemma ExistsBefore(y: Before, to: map<int, int>, a: int)
    requires a in AfterYoung(y, to)
    ensures Exists(y, a) && AfterYoung(y, to)[a] == Renamed(to, a) && (a in to || IsOld(y, a))
  {
  }

  /** Object `a` is at `t`, its words renamed. */
  ghost predicate PlacedAt(y: Before, v: Before, to: map<int, int>, a: int, t: int) {
    && Exists(y, a) && Exists(v, t) && var n := Size(y, a);
    && Size(v, t) == n >= 1 && 0 <= a && a + n <= |y.m| && 0 <= t && t + n <= |v.m|
    && y.m[a].Head? && v.m[t].Head? && v.m[t].size == y.m[a].size == n && v.m[t].ct == y.m[a].ct
    && (forall k :: t < k < t + n ==> v.m[k] == MapWord(to, y.m[k - t + a]))
  }

  /** A kept object is in its place. */
  lemma PlaceYoung(y: Before, v: Before, to: map<int, int>, a: int)
    requires YoungDone(y, v, to) && a in AfterYoung(y, to) && Exists(y, a)
    ensures PlacedAt(y, v, to, a, Renamed(to, a)) && Renamed(to, y.m[a].ct) == y.m[a].ct
  {
    hide Healthy, Reached, Exists, PlacedAt, AfterYoung;
    ExistsBefore(y, to, a);
    YoungKeys(y, v, to);
    RefsExist(y, a);
    TypeStays(y, v, to, a);
    if a in to {
      assert CopyDone.Carried(y, v, to, a);
      PlaceCarried(y, v, to, a);
    } else {
      assert CopyDone.Stayed(y, v, to, a);
      PlaceStayed(y, v, to, a);
    }
  }

  lemma TypeStays(y: Before, v: Before, to: map<int, int>, a: int)
    requires YoungDone(y, v, to) && Exists(y, a) && 0 <= a < |y.m| && y.m[a].Head?
    ensures Renamed(to, y.m[a].ct) == y.m[a].ct
  {
    hide Relocated, Reached, Healthy;
    YoungKeys(y, v, to);
    if a in y.young {
      WhereYoung(y, a);
    } else {
      WhereOld(y, a);
    }
  }

  lemma PlaceStayed(y: Before, v: Before, to: map<int, int>, a: int)
    requires Healthy(y) && Healthy(v) && CopyDone.Stayed(y, v, to, a) && IsOld(y, a)
    ensures PlacedAt(y, v, to, a, a)
  {
    hide Healthy;
    WhereOld(y, a);
    assert IsOld(v, a);
    WhereOld(v, a);
  }

  lemma PlaceCarried(y: Before, v: Before, to: map<int, int>, a: int)
    requires Healthy(y) && Healthy(v) && CopyDone.Carried(y, v, to, a)
    ensures PlacedAt(y, v, to, a, to[a])
  {
    hide Healthy;
    var t := to[a];
    YoungRange(y, a);
    if IsFresh(y, a) {
      WhereYoung(v, t);
    } else {
      assert IsOld(v, t);
      WhereOld(v, t);
    }
  }

  lemma RootsYoung(y: Before, v: Before, to: map<int, int>)
    requires YoungDone(y, v, to)
    ensures RootsFollow(y, v, AfterYoung(y, to)) && TableFollows(y, v, AfterYoung(y, to))
  {
    hide Healthy, Reached, Inside, GoodRef;
    ReachedClosed(y, to);
    RootsClosed(y, to);
    forall i | 0 <= i < |y.roots|
      ensures v.roots[i] == Renamed(AfterYoung(y, to), y.roots[i]) && (Inside(y, y.roots[i]) ==> y.roots[i] in AfterYoung(y, to))
    {
      RefAfterYoung(y, v, to, y.roots[i]);
    }
    forall o | o in y.table
      ensures Renamed(AfterYoung(y, to), y.table[o]) == Renamed(to, y.table[o]) && Named(y, AfterYoung(y, to), o)
    {
      RefAfterYoung(y, v, to, y.table[o]);
    }
  }

  lemma RootsClosed(y: Before, to: map<int, int>)
    requires Healthy(y) && Closed(y, to.Keys)
    ensures forall i :: 0 <= i < |y.roots| ==> GoodRef(y, y.roots[i]) && (InNew(y, y.roots[i]) ==> y.roots[i] in to)
    ensures forall o :: o in y.table ==> GoodRef(y, y.table[o]) && (InNew(y, y.table[o]) ==> y.table[o] in to)
  {
    HealthyParts(y);
  }

  /** Survivors are promoted to beyond the old objects there were. */
  lemma YoungApart(y: Before, v: Before, to: map<int, int>)
    requires YoungDone(y, v, to)
    ensures Injective(AfterYoung(y, to))
  {
    hide Healthy, Reached, IsOld;
    YoungKeys(y, v, to);
    forall a, b | a in to && IsOld(y, b)
      ensures to[a] != b
    {
      assert CopyDone.Carried(y, v, to, a) && CopyDone.Stayed(y, v, to, b);
      ApartFromOld(y, v, to, a, b);
    }
  }

  lemma StillOld(v: Before, b: int, ct: int)
    requires b in v.olds && 0 <= b < |v.m| && v.m[b].Head? && v.m[b].ct == ct != NIL
    ensures IsOld(v, b)
  {
  }

  lemma ApartFromOld(y: Before, v: Before, to: map<int, int>, a: int, b: int)
    requires Healthy(y) && Healthy(v) && CopyDone.Carried(y, v, to, a) && CopyDone.Stayed(y, v, to, b) && IsOld(y, b)
    ensures to[a] != b
  {
    hide Healthy;
    WhereOld(y, b);
    StillOld(v, b, y.m[b].ct);
    if IsFresh(y, a) {
      WhereYoung(v, to[a]);
    }
  }

  /** A young collection keeps the reached young objects and all old ones. */
  lemma YoungMoves(y: Before, v: Before, to: map<int, int>)
    requires YoungDone(y, v, to)
    ensures Moved(y, v, AfterYoung(y, to))
  {
    hide YoungDone, Transferred, Holds, RootsFollow, TableFollows, IsOld;
    YoungApart(y, v, to);
    forall a | a in AfterYoung(y, to)
      ensures Transferred(y, v, AfterYoung(y, to), a) && Holds(y, AfterYoung(y, to), a)
    {
      BroughtYoung(y, v, to, a);
    }
    forall t | Exists(v, t)
      ensures IsTarget(AfterYoung(y, to), t)
    {
      NothingNew(y, v, to, t);
    }
    RootsYoung(y, v, to);
    BoundsYoung(y, v, to);
  }

  lemma BoundsYoung(y: Before, v: Before, to: map<int, int>)
    requires YoungDone(y, v, to)
    ensures SameBounds(y, v)
  {
  }

  lemma NothingNew(y: Before, v: Before, to: map<int, int>, t: int)
    requires YoungDone(y, v, to) && Exists(v, t)
    ensures IsTarget(AfterYoung(y, to), t)
  {
    hide Healthy, Reached;
    var all := AfterYoung(y, to);
    YoungKeys(y, v, to);
    if IsTarget(to, t) {
      var a :| a in to && to[a] == t;
      assert a in all && all[a] == t;
    } else {
      assert t in y.olds;
      TypedBefore(y, v, to, t);
      assert t in all && all[t] == t;
    }
  }

  lemma TypedBefore(y: Before, v: Before, to: map<int, int>, t: int)
    requires YoungDone(y, v, to) && Exists(v, t) && t in y.olds && !IsTarget(to, t)
    ensures IsOld(y, t) && t !in to
  {
    hide Reached;
    YoungKeys(y, v, to);
  }

  // ----- a collection of the old generation -----

  /** The live old objects where they are now, and all young ones where they were. */
  ghost function AfterOld(y: Before, live: set<int>, to: map<int, int>): map<int, int> {
    map a | a in y.young.Keys + live && Exists(y, a) :: Renamed(to, a)
  }

  /** `v` is `y` after a collection of the old generation. */
  ghost predicate OldDone(y: Before, v: Before, live: set<int>, to: map<int, int>) {
    && Collected(y, ForOld(v), live, to, v.rem) && v == Compacted(y, ForOld(v), v.table, v.rem) && Healthy(v)
    && v.table == (map o | o in OldCollection.Purged(y.table, y.olo, y.olimit, live) :: Renamed(to, y.table[o]))
    && (forall a :: a in live <==> Marking.Reachable(OldCollection.Unflagged(ForOld(y)), a))
  }

  lemma ReachableClosed(w: Marking.World, live: set<int>)
    requires forall a :: a in live <==> Marking.Reachable(w, a)
    ensures Marking.Closed(w, live)
  {
    hide Marking.HasFields;
    forall k | w.ylo <= k < w.yhi && 0 <= k < |w.m| && Marking.InOld(w, RefOf(w.m[k]))
      ensures RefOf(w.m[k]) in live
    {
      assert Marking.Reachable(w, RefOf(w.m[k]));
    }
    forall i | 0 <= i < |w.roots| && Marking.InOld(w, w.roots[i])
      ensures w.roots[i] in live
    {
      assert Marking.Reachable(w, w.roots[i]);
    }
    forall a | a in w.len && 0 <= a < |w.m| && Marking.InOld(w, RefOf(w.m[a]))
      ensures RefOf(w.m[a]) in live
    {
      assert Marking.Reachable(w, RefOf(w.m[a]));
    }
    forall a | a in live && a in w.len
      ensures Marking.HasFields(w, live, a, w.len[a])
    {
      FieldsReachable(w, live, a);
    }
  }

  lemma FieldsReachable(w: Marking.World, live: set<int>, a: int)
    requires (forall a :: a in live <==> Marking.Reachable(w, a)) && a in live && a in w.len
    ensures Marking.HasFields(w, live, a, w.len[a])
  {
    forall k | a <= k < a + w.len[a] && 0 <= k < |w.m| && Marking.InOld(w, RefOf(w.m[k]))
      ensures RefOf(w.m[k]) in live
    {
      forall x: set<int> | Marking.Closed(w, x)
        ensures RefOf(w.m[k]) in x
      {
        assert a in x && Marking.HasFields(w, x, a, w.len[a]);
      }
      assert Marking.Reachable(w, RefOf(w.m[k]));
    }
  }

  lemma LiveClosed(y: Before, v: Before, live: set<int>, to: map<int, int>)
    requires OldDone(y, v, live, to)
    ensures forall a, k :: a in live && a in y.olds && a <= k < a + y.olds[a] && 0 <= k < |y.m| && y.olo <= RefOf(y.m[k]) < y.olimit ==> RefOf(y.m[k]) in live
    ensures forall k :: y.flo <= k < y.fhi && 0 <= k < |y.m| && y.olo <= RefOf(y.m[k]) < y.olimit ==> RefOf(y.m[k]) in live
    ensures forall i :: 0 <= i < |y.roots| && y.olo <= y.roots[i] < y.olimit ==> y.roots[i] in live
    ensures forall a :: a in live ==> IsOld(y, a)
  {
    hide Collected, Compacted, Marking.Reachable, Healthy, Marking.HasFields, IsOld;
    var w := OldCollection.Unflagged(ForOld(y));
    ReachableClosed(w, live);
    OldCollection.UnflaggedSame(ForOld(y));
    forall a, k | a in live && a in y.olds && a <= k < a + y.olds[a] && 0 <= k < |y.m| && y.olo <= RefOf(y.m[k]) < y.olimit
      ensures RefOf(y.m[k]) in live
    {
      FieldLive(w, live, a, k);
    }
    LiveOld(y, v, live, to);
  }

  lemma FieldLive(w: Marking.World, live: set<int>, a: int, k: int)
    requires Marking.Closed(w, live) && a in live && a in w.len && a <= k < a + w.len[a] && 0 <= k < |w.m|
    requires Marking.InOld(w, RefOf(w.m[k]))
    ensures RefOf(w.m[k]) in live
  {
    assert Marking.HasFields(w, live, a, w.len[a]);
  }

  lemma LiveOld(y: Before, v: Before, live: set<int>, to: map<int, int>)
    requires OldDone(y, v, live, to)
    ensures forall a :: a in live ==> IsOld(y, a)
  {
  }

  /** The references of a kept object. */
  lemma KeptOldRefs(y: Before, v: Before, live: set<int>, to: map<int, int>, a: int, k: int)
    requires OldDone(y, v, live, to) && a in AfterOld(y, live, to) && Exists(y, a) && a <= k < a + Size(y, a)
    ensures 0 <= k < |y.m| && GoodRef(y, RefOf(y.m[k])) && (y.olo <= RefOf(y.m[k]) < y.olimit ==> RefOf(y.m[k]) in live)
    ensures k > a ==> IsField(y.m[k])
  {
    hide Collected, Compacted, Marking.Reachable, Healthy, GoodRef;
    HealthyBefore(y, v, live, to);
    RefsExist(y, a);
    AnyRange(y, a);
    LiveClosed(y, v, live, to);
    if a in y.young {
      WhereYoung(y, a);
    } else {
      WhereOld(y, a);
    }
  }

  lemma HealthyBefore(y: Before, v: Before, live: set<int>, to: map<int, int>)
    requires OldDone(y, v, live, to)
    ensures Healthy(y) && Healthy(v) && SameBounds(y, v) && v.young == y.young && v.flo == y.flo && v.fhi == y.fhi
    ensures Collected(y, ForOld(v), live, to, v.rem)
  {
    CollectedBounds(y, ForOld(v), live, to, v.rem);
  }

  lemma RefAfterOld(y: Before, v: Before, live: set<int>, to: map<int, int>, r: int)
    requires OldDone(y, v, live, to) && GoodRef(y, r) && (y.olo <= r < y.olimit ==> r in live)
    ensures Renamed(AfterOld(y, live, to), r) == Renamed(to, r) && (Inside(y, r) ==> r in AfterOld(y, live, to))
  {
    hide Collected, Compacted, Marking.Reachable, Healthy, IsOld;
    HealthyBefore(y, v, live, to);
    RenamedWhere(y, ForOld(v), live, to, v.rem);
    LiveClosed(y, v, live, to);
    OldSideBelow(y);
    if Inside(y, r) {
      GoodExists(y, r);
    }
  }

  lemma OldSideBelow(y: Before)
    requires Healthy(y)
    ensures y.ohi <= y.olimit <= y.nlo
  {
  }

  lemma PlaceOld(y: Before, v: Before, live: set<int>, to: map<int, int>, a: int)
    requires OldDone(y, v, live, to) && a in AfterOld(y, live, to) && Exists(y, a)
    ensures var t, n := Renamed(to, a), Size(y, a);
            && Exists(v, t) && Size(v, t) == n >= 1 && 0 <= a && a + n <= |y.m| && 0 <= t && t + n <= |v.m|
            && y.m[a].Head? && v.m[t].Head? && v.m[t].size == y.m[a].size == n && v.m[t].ct == Renamed(to, y.m[a].ct)
            && (forall k :: t < k < t + n ==> v.m[k] == MapWord(to, y.m[k - t + a]))
  {
    hide OldDone, Healthy, Collected, Compacted, Marking.Reachable, IsOld;
    HealthyBefore(y, v, live, to);
    RenamedWhere(y, ForOld(v), live, to, v.rem);
    if a in y.young {
      WhereYoung(y, a);
      StaysYoung(y, v, live, to, a);
    } else {
      KeptIsLive(y, v, live, to, a);
      OldPlace(y, v, live, to, a);
    }
  }

  lemma KeptIsLive(y: Before, v: Before, live: set<int>, to: map<int, int>, a: int)
    requires OldDone(y, v, live, to) && a in AfterOld(y, live, to) && a !in y.young
    ensures a in live && IsOld(y, a)
  {
    LiveOld(y, v, live, to);
  }

  lemma StaysYoung(y: Before, v: Before, live: set<int>, to: map<int, int>, a: int)
    requires OldDone(y, v, live, to) && a in y.young
    ensures var n := y.young[a];
            && Renamed(to, a) == a && a in v.young && v.young[a] == n >= 1 && 0 <= a && a + n <= |y.m| == |v.m|
            && y.m[a].Head? && v.m[a].Head? && v.m[a].size == y.m[a].size == n && v.m[a].ct == Renamed(to, y.m[a].ct)
            && (forall k :: a < k < a + n ==> v.m[k] == MapWord(to, y.m[k]))
  {
    hide OldDone, Healthy, Collected, Compacted, Marking.Reachable, IsOld;
    HealthyBefore(y, v, live, to);
    RenamedWhere(y, ForOld(v), live, to, v.rem);
    WhereYoung(y, a);
    forall k | a <= k < a + y.young[a]
      ensures 0 <= k < |v.m| && v.m[k] == MapWord(to, y.m[k])
    {
      YoungWordMapped(y, ForOld(v), live, to, v.rem, k);
    }
    OldSideBelow(y);
  }

  lemma OldPlace(y: Before, v: Before, live: set<int>, to: map<int, int>, a: int)
    requires OldDone(y, v, live, to) && a in live && IsOld(y, a)
    ensures var t, n := Renamed(to, a), y.olds[a];
            && IsOld(v, t) && t !in v.young && v.olds[t] == n >= 1 && 0 <= a && a + n <= |y.m| && 0 <= t && t + n <= |v.m|
            && y.m[a].Head? && v.m[t].Head? && v.m[t].size == y.m[a].size == n && v.m[t].ct == Renamed(to, y.m[a].ct)
            && (forall k :: t < k < t + n ==> v.m[k] == MapWord(to, y.m[k - t + a]))
  {
    hide OldDone, Healthy, Compacted, Marking.Reachable, OldCollection.Sound, OldCollection.Preserved;
    HealthyBefore(y, v, live, to);
    WhereOld(y, a);
    NoneInside(y, a);
    CarriedOld(y, v, live, to, a);
    TypedAfter(y, v, live, to, a);
    WhereOld(v, Renamed(to, a));
  }

  lemma NoneInside(y: Before, a: int)
    requires Healthy(y) && a in y.olds
    ensures forall k :: a < k < a + y.olds[a] ==> k !in y.olds
  {
  }

  lemma CarriedOld(y: Before, v: Before, live: set<int>, to: map<int, int>, a: int)
    requires OldDone(y, v, live, to) && a in live && a in y.olds && 1 <= a && a + y.olds[a] <= |y.m| && y.m[a].Head?
    requires forall k :: a < k < a + y.olds[a] ==> k !in y.olds
    ensures var t, n := Renamed(to, a), y.olds[a];
            && t in v.olds && v.olds[t] == n >= 1 && 0 <= t && t + n <= |v.m|
            && v.m[t].Head? && v.m[t].size == n && v.m[t].ct == Renamed(to, y.m[a].ct)
            && (forall k :: t < k < t + n ==> v.m[k] == MapWord(to, y.m[k - t + a]))
  {
    hide Healthy, Compacted, Marking.Reachable, OldCollection.Sound;
    var w, t := OldCollection.Unflagged(ForOld(y)), Renamed(to, a);
    CarriedOf(y, ForOld(v), live, to, v.rem, a);
    hide Collected;
    forall k | t < k < t + y.olds[a]
      ensures v.m[k] == MapWord(to, y.m[k - t + a])
    {
      assert w.m[k - t + a] == y.m[k - t + a];
    }
  }

  /** A carried object has a type again. */
  lemma TypedAfter(y: Before, v: Before, live: set<int>, to: map<int, int>, a: int)
    requires OldDone(y, v, live, to) && a in live && IsOld(y, a)
    ensures IsOld(v, Renamed(to, a))
  {
    hide Healthy, Compacted, Marking.Reachable;
    HealthyBefore(y, v, live, to);
    HealthySound(y);
    SameObjects(y);
    LiveOld(y, v, live, to);
    SameObjects(v);
    OldCollection.ImageGoodHere(OldCollection.Unflagged(ForOld(y)), ForOld(v), live, to, v.rem, a);
  }

  lemma TransferredOld(y: Before, v: Before, live: set<int>, to: map<int, int>, a: int)
    requires OldDone(y, v, live, to) && a in AfterOld(y, live, to)
    ensures Transferred(y, v, AfterOld(y, live, to), a) && Holds(y, AfterOld(y, live, to), a)
  {
    hide OldDone, GoodRef, Inside, IsOld, Exists, AfterOld;
    ExistsOld(y, live, to, a);
    PlaceOld(y, v, live, to, a);
    forall k | a <= k < a + Size(y, a)
      ensures 0 <= k < |y.m| && MapWord(AfterOld(y, live, to), y.m[k]) == MapWord(to, y.m[k])
      ensures Renamed(AfterOld(y, live, to), RefOf(y.m[k])) == Renamed(to, RefOf(y.m[k]))
      ensures Inside(y, RefOf(y.m[k])) ==> RefOf(y.m[k]) in AfterOld(y, live, to)
    {
      KeptOldRefs(y, v, live, to, a, k);
      RefAfterOld(y, v, live, to, RefOf(y.m[k]));
    }
    assert RefOf(y.m[a]) == y.m[a].ct;
  }

  lemma ExistsOld(y: Before, live: set<int>, to: map<int, int>, a: int)
    requires a in AfterOld(y, live, to)
    ensures Exists(y, a) && AfterOld(y, live, to)[a] == Renamed(to, a) && (a in live || a in y.young)
  {
  }

  lemma RootsOld(y: Before, v: Before, live: set<int>, to: map<int, int>)
    requires OldDone(y, v, live, to)
    ensures RootsFollow(y, v, AfterOld(y, live, to))
  {
    hide OldDone, Healthy, Inside, GoodRef, AfterOld;
    HealthyBefore(y, v, live, to);
    LiveClosed(y, v, live, to);
    RootsAfter(y, ForOld(v), live, to, v.rem);
    forall i | 0 <= i < |y.roots|
      ensures v.roots[i] == Renamed(AfterOld(y, live, to), y.roots[i]) && (Inside(y, y.roots[i]) ==> y.roots[i] in AfterOld(y, live, to))
    {
      RefAfterOld(y, v, live, to, y.roots[i]);
    }
  }

  lemma TableOld(y: Before, v: Before, live: set<int>, to: map<int, int>)
    requires OldDone(y, v, live, to)
    ensures TableFollows(y, v, AfterOld(y, live, to))
  {
    hide Healthy, GoodRef, AfterOld, Collected, Compacted, Marking.Reachable;
    forall o
      ensures o in v.table <==> Named(y, AfterOld(y, live, to), o)
      ensures o in v.table ==> v.table[o] == Renamed(AfterOld(y, live, to), y.table[o])
    {
      if o in y.table {
        NameGood(y, v, live, to, o);
      }
    }
  }

  lemma NameGood(y: Before, v: Before, live: set<int>, to: map<int, int>, o: int)
    requires OldDone(y, v, live, to) && o in y.table
    ensures o in v.table <==> Named(y, AfterOld(y, live, to), o)
    ensures o in v.table ==> v.table[o] == Renamed(AfterOld(y, live, to), y.table[o])
  {
    hide Collected, Compacted, Marking.Reachable, IsOld;
    HealthyBefore(y, v, live, to);
    RootsExist(y);
    var r := y.table[o];
    assert GoodRef(y, r);
    OldSideBelow(y);
    if o in v.table {
      RefAfterOld(y, v, live, to, r);
    } else if r in AfterOld(y, live, to) {
      ExistsOld(y, live, to, r);
      YoungAbove(y, r);
    }
  }

  lemma YoungAbove(y: Before, r: int)
    requires Healthy(y) && y.olo <= r < y.olimit
    ensures r !in y.young
  {
  }

  lemma OldApart(y: Before, v: Before, live: set<int>, to: map<int, int>)
    requires OldDone(y, v, live, to)
    ensures Injective(AfterOld(y, live, to))
  {
    hide OldDone, Healthy, Collected, AfterOld;
    HealthyBefore(y, v, live, to);
    var all := AfterOld(y, live, to);
    forall a, b | a in all && b in all && a != b
      ensures all[a] != all[b]
    {
      ExistsOld(y, live, to, a);
      ExistsOld(y, live, to, b);
      PlacesDiffer(y, v, live, to, a, b);
    }
  }

  lemma PlacesDiffer(y: Before, v: Before, live: set<int>, to: map<int, int>, a: int, b: int)
    requires OldDone(y, v, live, to) && (a in live || a in y.young) && (b in live || b in y.young) && a != b
    ensures Renamed(to, a) != Renamed(to, b)
  {
    hide OldDone, Healthy, Collected;
    HealthyBefore(y, v, live, to);
    RenamedWhere(y, ForOld(v), live, to, v.rem);
    OneToOneOf(y, ForOld(v), live, to, v.rem);
    OldSideBelow(y);
    YoungNew(y);
  }

  lemma YoungNew(y: Before)
    requires Healthy(y)
    ensures forall a :: a in y.young ==> InNew(y, a)
  {
  }

  /** A collection of the old generation keeps the live old objects and all young ones. */
  lemma OldMoves(y: Before, v: Before, live: set<int>, to: map<int, int>)
    requires OldDone(y, v, live, to)
    ensures Moved(y, v, AfterOld(y, live, to))
  {
    hide OldDone, Transferred, Holds, RootsFollow, TableFollows, IsOld, Healthy;
    OldApart(y, v, live, to);
    forall a | a in AfterOld(y, live, to)
      ensures Transferred(y, v, AfterOld(y, live, to), a) && Holds(y, AfterOld(y, live, to), a)
    {
      TransferredOld(y, v, live, to, a);
    }
    forall t | Exists(v, t)
      ensures IsTarget(AfterOld(y, live, to), t)
    {
      NothingNewOld(y, v, live, to, t);
    }
    RootsOld(y, v, live, to);
    TableOld(y, v, live, to);
    HealthyBefore(y, v, live, to);
  }

  lemma NothingNewOld(y: Before, v: Before, live: set<int>, to: map<int, int>, t: int)
    requires OldDone(y, v, live, to) && Exists(v, t)
    ensures IsTarget(AfterOld(y, live, to), t)
  {
    hide Healthy, Collected, Marking.Reachable;
    var all := AfterOld(y, live, to);
    HealthyBefore(y, v, live, to);
    if t in y.young {
      StaysYoung(y, v, live, to, t);
      assert t in all && all[t] == t;
    } else {
      var a := WasLive(y, ForOld(v), live, to, v.table, v.rem, t);
      assert a in all && all[a] == t;
    }
  }

  // ----- gcollect -----

  /** `moved` is where the objects of `y` that a young collection keeps are in `v`. */
  ghost predicate YoungGathered(y: Before, v: Before, moved: map<int, int>) {
    exists to :: YoungDone(y, v, to) && moved == AfterYoung(y, to)
  }

  /** And those that a collection of the old generation keeps. */
  ghost predicate OldGathered(y: Before, v: Before, moved: map<int, int>) {
    exists live, to :: OldDone(y, v, live, to) && moved == AfterOld(y, live, to)
  }

  /** A young collection, and one of the old generation if afterwards the
      survivors might find no room there. */
  ghost predicate Gathered(y: Before, v: Before, moved: map<int, int>) {
    exists x, m :: YoungGathered(y, x, m)
                   && if x.olimit - x.ohi >= SurvivorWords(x) then v == x && moved == m else GatheredOn(x, v, m, moved)
  }

  ghost predicate GatheredOn(x: Before, v: Before, m: map<int, int>, moved: map<int, int>) {
    exists m' :: OldGathered(x, v, m') && moved == Then(m, m')
  }

  /** Another collection of the old generation after those. */
  ghost predicate GatheredTwice(y: Before, v: Before, moved: map<int, int>) {
    exists x, m :: Gathered(y, x, m) && GatheredOn(x, v, m, moved)
  }

  /** What gcollect does: `x` is what the young collection leaves; the old
      generation is collected exactly if the words of the young objects that are
      left, all survivors then, are more than there is room for. */
  lemma GatheredMeans(y: Before, v: Before, moved: map<int, int>) returns (x: Before, m: map<int, int>)
    requires Gathered(y, v, moved)
    ensures YoungGathered(y, x, m)
    ensures x.ohi + (if x.low then x.fhi - x.mid else x.mid - x.flo) <= x.olimit ==> v == x && moved == m
    ensures x.ohi + (if x.low then x.fhi - x.mid else x.mid - x.flo) > x.olimit ==> GatheredOn(x, v, m, moved)
  {
    x, m :| YoungGathered(y, x, m)
            && if x.olimit - x.ohi >= SurvivorWords(x) then v == x && moved == m else GatheredOn(x, v, m, moved);
  }

  lemma YoungGatheredMoves(y: Before, v: Before, moved: map<int, int>)
    requires YoungGathered(y, v, moved)
    ensures Moved(y, v, moved) && Healthy(y) && Healthy(v)
  {
    var to :| YoungDone(y, v, to) && moved == AfterYoung(y, to);
    YoungMoves(y, v, to);
  }

  lemma OldGatheredMoves(y: Before, v: Before, moved: map<int, int>)
    requires OldGathered(y, v, moved)
    ensures Moved(y, v, moved) && Healthy(y) && Healthy(v)
  {
    var live, to :| OldDone(y, v, live, to) && moved == AfterOld(y, live, to);
    OldMoves(y, v, live, to);
    HealthyBefore(y, v, live, to);
  }

  lemma GatheredOnMoves(y: Before, x: Before, v: Before, m: map<int, int>, moved: map<int, int>)
    requires Moved(y, x, m) && Healthy(y) && GatheredOn(x, v, m, moved)
    ensures Moved(y, v, moved) && Healthy(v)
  {
    hide Moved, OldGathered, Healthy;
    var m' :| OldGathered(x, v, m') && moved == Then(m, m');
    OldGatheredMoves(x, v, m');
    MovedThen(y, x, v, m, m');
  }

  /** Whatever gcollect does is one renaming of the heap. */
  lemma GatheredMoves(y: Before, v: Before, moved: map<int, int>)
    requires Gathered(y, v, moved)
    ensures Moved(y, v, moved) && Healthy(y) && Healthy(v)
  {
    hide Moved, YoungGathered, GatheredOn, Healthy;
    var x, m :| YoungGathered(y, x, m)
                && if x.olimit - x.ohi >= SurvivorWords(x) then v == x && moved == m else GatheredOn(x, v, m, moved);
    YoungGatheredMoves(y, x, m);
    if x.olimit - x.ohi < SurvivorWords(x) {
      GatheredOnMoves(y, x, v, m, moved);
    }
  }

  lemma GatheredTwiceMoves(y: Before, v: Before, moved: map<int, int>)
    requires GatheredTwice(y, v, moved)
    ensures Moved(y, v, moved) && Healthy(y) && Healthy(v)
  {
    hide Moved, Gathered, GatheredOn, Healthy;
    var x, m :| Gathered(y, x, m) && GatheredOn(x, v, m, moved);
    GatheredMoves(y, x, m);
    GatheredOnMoves(y, x, v, m, moved);
  }
}
