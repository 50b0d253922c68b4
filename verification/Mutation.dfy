/** What the program does to the heap between collections (vm/gc.c): it
    allocates objects and stores references, with the write barrier. */
module Mutation {
  import opened Heap
  import opened CompactionPlan
  import opened Copying

  /** An object as it is handed out: typed, its fields NIL. */
  ghost predicate Blank(m: seq<Word>, m': seq<Word>, op: int, n: int, mark: bool, ct: int) {
    && |m'| == |m| && 0 <= op && op + n <= |m| && n >= 1
    && m'[op] == Head(n, mark, ct)
    && (forall k :: op < k < op + n ==> m'[k] == Ref(NIL))
    && (forall k :: 0 <= k < |m| && (k < op || op + n <= k) ==> m'[k] == m[k])
  }

  /** Whatever was good is good in a heap with more objects. */
  ghost predicate More(y: Before, z: Before) {
    && |z.m| == |y.m| && z.nlo == y.nlo && z.nhi == y.nhi && z.olo == y.olo && z.olimit == y.olimit && 1 <= y.olo
    && (forall a :: a in y.young ==> a in z.young && z.young[a] == y.young[a])
    && (forall a :: IsOld(y, a) ==> IsOld(z, a) && z.olds[a] == y.olds[a])
  }

  lemma RefMore(y: Before, z: Before, r: int)
    requires More(y, z) && GoodRef(y, r)
    ensures GoodRef(z, r)
  {
  }

  lemma WordsMore(y: Before, z: Before, a: int, n: int)
    requires More(y, z) && GoodWords(y, a, n) && n >= 1
    requires forall k :: a <= k < a + n && 0 <= k < |y.m| ==> RefOf(z.m[k]) == RefOf(y.m[k]) && (IsField(z.m[k]) <==> IsField(y.m[k]))
    ensures GoodWords(z, a, n)
  {
    hide GoodRef;
    forall k | a <= k < a + n && 0 <= k < |z.m|
      ensures GoodRef(z, RefOf(z.m[k]))
    {
      RefMore(y, z, RefOf(y.m[k]));
    }
  }

  lemma RootsMore(y: Before, z: Before)
    requires More(y, z) && RootsGood(y) && z.roots == y.roots && z.table == y.table
    ensures RootsGood(z)
  {
    hide GoodRef;
    forall i | 0 <= i < |z.roots|
      ensures GoodRef(z, z.roots[i])
    {
      RefMore(y, z, y.roots[i]);
    }
    forall a | a in z.table
      ensures GoodRef(z, z.table[a])
    {
      RefMore(y, z, y.table[a]);
    }
  }

  lemma BlankGood(z: Before, y: Before, op: int, n: int, mark: bool, ct: int)
    requires Blank(y.m, z.m, op, n, mark, ct) && GoodRef(z, ct) && !InNew(z, ct) && 1 <= z.olo <= z.olimit <= z.nlo
    ensures GoodWords(z, op, n)
  {
  }

  // ----- a young object -----

  /** The heap with one more young object, above or below the others. */
  function WithYoung(y: Before, m: seq<Word>, n: int): Before {
    if y.low then y.(m := m, young := y.young[y.flo - n := n], flo := y.flo - n)
    else y.(m := m, young := y.young[y.fhi := n], fhi := y.fhi + n)
  }

  function YoungPlace(y: Before, n: int): int {
    if y.low then y.flo - n else y.fhi
  }

  /** A heap between collections whose survivors are where swap left them. */
  ghost predicate Swapped(y: Before) {
    if y.low then y.fhi == y.nhi else y.flo == y.nlo
  }

  lemma YoungLayout(y: Before, m: seq<Word>, n: int, ct: int)
    requires Layout(y) && Swapped(y) && n >= 1 && (if y.low then y.nlo <= y.flo - n else y.fhi + n <= y.nhi)
    requires Blank(y.m, m, YoungPlace(y, n), n, false, ct)
    ensures Layout(WithYoung(y, m, n)) && Swapped(WithYoung(y, m, n))
    ensures YoungPlace(y, n) !in y.young && YoungPlace(y, n) !in y.olds
    ensures FreshWords(WithYoung(y, m, n)) == FreshWords(y) + n && SurvivorWords(WithYoung(y, m, n)) == SurvivorWords(y)
  {
    hide Tiling, Parsed, Blank;
    YoungApart(y, m, n, ct);
    if y.low {
      TilingPrepend(y.young, y.flo, y.fhi, n) by {
        YoungTiled(y);
      }
      YoungParsed(y, m, y.flo - n, n, ct);
    } else {
      TilingAppend(y.young, y.flo, y.fhi, n) by {
        YoungTiled(y);
      }
      YoungParsed(y, m, y.fhi, n, ct);
    }
  }

  lemma YoungTiled(y: Before)
    requires Layout(y)
    ensures Tiling(y.young, y.flo, y.fhi)
  {
  }

  /** The place of a new young object is none of an object. */
  lemma YoungApart(y: Before, m: seq<Word>, n: int, ct: int)
    requires Layout(y) && Swapped(y) && n >= 1 && (if y.low then y.nlo <= y.flo - n else y.fhi + n <= y.nhi)
    requires Blank(y.m, m, YoungPlace(y, n), n, false, ct)
    ensures YoungPlace(y, n) !in y.young && YoungPlace(y, n) !in y.olds && |m| == |y.m|
    ensures Parsed(m, y.olds, y.olo, y.ohi)
  {
  }

  lemma YoungParsed(y: Before, m: seq<Word>, op: int, n: int, ct: int)
    requires Layout(y) && 0 <= op && Blank(y.m, m, op, n, false, ct) && (op + n == y.flo || op == y.fhi) && op !in y.young
    requires Tiling(y.young[op := n], if op < y.flo then op else y.flo, if op < y.flo then y.fhi else op + n)
    ensures Parsed(m, y.young[op := n], if op < y.flo then op else y.flo, if op < y.flo then y.fhi else op + n)
  {
  }

  lemma YoungMore(y: Before, m: seq<Word>, n: int, ct: int)
    requires Layout(y) && n >= 1 && (if y.low then y.nlo <= y.flo - n else y.fhi + n <= y.nhi)
    requires YoungPlace(y, n) !in y.young && Blank(y.m, m, YoungPlace(y, n), n, false, ct)
    ensures More(y, WithYoung(y, m, n))
    ensures forall k :: 0 <= k < |m| && (y.olo <= k < y.ohi || y.flo <= k < y.fhi) ==> m[k] == y.m[k]
    ensures forall a :: IsOld(WithYoung(y, m, n), a) ==> IsOld(y, a)
  {
  }

  lemma YoungObjects(y: Before, m: seq<Word>, n: int, ct: int)
    requires Layout(y) && ObjectsGood(y) && n >= 1 && (if y.low then y.nlo <= y.flo - n else y.fhi + n <= y.nhi)
    requires YoungPlace(y, n) !in y.young && Blank(y.m, m, YoungPlace(y, n), n, false, ct)
    requires ct != NIL && GoodRef(y, ct) && !InNew(y, ct)
    ensures ObjectsGood(WithYoung(y, m, n))
  {
    hide GoodWords, GoodRef, Blank, More, IsOld;
    var z, op := WithYoung(y, m, n), YoungPlace(y, n);
    YoungMore(y, m, n, ct);
    BlankHead(y.m, m, op, n, false, ct);
    forall a | a in z.young && 0 <= a < |z.m| && z.m[a].Head?
      ensures z.m[a].ct != NIL && !z.m[a].mark && GoodWords(z, a, z.young[a])
    {
      if a == op {
        RefMore(y, z, ct);
        BlankGood(z, y, op, n, false, ct);
      } else {
        WordsMore(y, z, a, y.young[a]);
      }
    }
    forall a | IsOld(z, a)
      ensures a in z.olds && GoodWords(z, a, z.olds[a])
    {
      OldThere(y, a);
      WordsMore(y, z, a, y.olds[a]);
    }
  }

  lemma OldThere(y: Before, a: int)
    requires IsOld(y, a)
    ensures a in y.olds && y.m[a].Head?
  {
  }

  lemma BlankHead(m: seq<Word>, m': seq<Word>, op: int, n: int, mark: bool, ct: int)
    requires Blank(m, m', op, n, mark, ct)
    ensures 0 <= op < |m'| == |m| && m'[op] == Head(n, mark, ct)
  {
  }

  /** gc_malloc keeps the heap healthy. */
  lemma YoungHealthy(y: Before, m: seq<Word>, n: int, ct: int)
    requires Healthy(y) && Swapped(y) && n >= 1 && (if y.low then y.nlo <= y.flo - n else y.fhi + n <= y.nhi)
    requires Blank(y.m, m, YoungPlace(y, n), n, false, ct) && ct != NIL && GoodRef(y, ct) && !InNew(y, ct)
    ensures Healthy(WithYoung(y, m, n)) && Swapped(WithYoung(y, m, n))
    ensures FreshWords(WithYoung(y, m, n)) == FreshWords(y) + n && SurvivorWords(WithYoung(y, m, n)) == SurvivorWords(y)
  {
    hide GoodWords, GoodRef, Blank, More, ObjectsGood, RootsGood;
    var z := WithYoung(y, m, n);
    YoungLayout(y, m, n, ct);
    YoungMore(y, m, n, ct);
    YoungObjects(y, m, n, ct);
    RootsMore(y, z);
    YoungRemembered(y, m, n, ct);
  }

  lemma YoungRemembered(y: Before, m: seq<Word>, n: int, ct: int)
    requires Layout(y) && RememberedAll(y) && n >= 1 && (if y.low then y.nlo <= y.flo - n else y.fhi + n <= y.nhi)
    requires YoungPlace(y, n) !in y.young && Blank(y.m, m, YoungPlace(y, n), n, false, ct)
    ensures RememberedAll(WithYoung(y, m, n))
  {
    YoungMore(y, m, n, ct);
    var z := WithYoung(y, m, n);
    forall a | IsOld(z, a) && a !in z.rem
      ensures NoYoung(z, z.m, a, z.olds[a])
    {
      assert NoYoung(y, y.m, a, y.olds[a]);
    }
  }

  // ----- an old object -----

  function WithOld(y: Before, m: seq<Word>, n: int, rem: seq<int>): Before {
    y.(m := m, olds := y.olds[y.ohi := n], ohi := y.ohi + n, rem := rem)
  }

  lemma OldMore(y: Before, m: seq<Word>, n: int, mark: bool, ct: int)
    requires Layout(y) && n >= 1 && y.ohi + n <= y.olimit && Blank(y.m, m, y.ohi, n, mark, ct)
    ensures y.ohi !in y.olds && y.ohi !in y.young
    ensures forall k :: 0 <= k < |m| && (y.olo <= k < y.ohi || y.flo <= k < y.fhi) ==> m[k] == y.m[k]
    ensures forall rem :: More(y, WithOld(y, m, n, rem)) && Layout(WithOld(y, m, n, rem))
  {
    TilingAppend(y.olds, y.olo, y.ohi, n);
  }

  /** gc_malloc_old keeps the heap healthy, whether it remembers the object or not. */
  lemma OldHealthy(y: Before, m: seq<Word>, n: int, remember: bool, ct: int)
    requires Healthy(y) && n >= 1 && y.ohi + n <= y.olimit && Blank(y.m, m, y.ohi, n, remember, ct)
    requires ct != NIL && GoodRef(y, ct) && !InNew(y, ct)
    ensures Healthy(WithOld(y, m, n, if remember then y.rem + [y.ohi] else y.rem))
  {
    hide GoodWords, GoodRef, Blank, More, ObjectsGood, RootsGood, RememberedAll, Layout;
    var z := WithOld(y, m, n, if remember then y.rem + [y.ohi] else y.rem);
    OldMore(y, m, n, remember, ct);
    OldObjects(y, m, n, remember, ct);
    OldRemembered(y, m, n, remember, ct);
    RootsMore(y, z);
  }

  lemma OldObjects(y: Before, m: seq<Word>, n: int, remember: bool, ct: int)
    requires Healthy(y) && n >= 1 && y.ohi + n <= y.olimit && Blank(y.m, m, y.ohi, n, remember, ct)
    requires ct != NIL && GoodRef(y, ct) && !InNew(y, ct)
    ensures ObjectsGood(WithOld(y, m, n, if remember then y.rem + [y.ohi] else y.rem))
  {
    hide GoodWords, GoodRef, Blank, More, RootsGood, RememberedAll;
    var z := WithOld(y, m, n, if remember then y.rem + [y.ohi] else y.rem);
    OldMore(y, m, n, remember, ct);
    BlankHead(y.m, m, y.ohi, n, remember, ct);
    forall a | a in z.young && 0 <= a < |z.m| && z.m[a].Head?
      ensures z.m[a].ct != NIL && !z.m[a].mark && GoodWords(z, a, z.young[a])
    {
      WordsMore(y, z, a, y.young[a]);
    }
    forall a | IsOld(z, a)
      ensures GoodWords(z, a, z.olds[a])
    {
      if a == y.ohi {
        RefMore(y, z, ct);
        BlankGood(z, y, a, n, remember, ct);
      } else {
        assert IsOld(y, a);
        WordsMore(y, z, a, y.olds[a]);
      }
    }
  }

  lemma OldRemembered(y: Before, m: seq<Word>, n: int, remember: bool, ct: int)
    requires Healthy(y) && n >= 1 && y.ohi + n <= y.olimit && Blank(y.m, m, y.ohi, n, remember, ct)
    requires ct != NIL && !InNew(y, ct)
    ensures RememberedAll(WithOld(y, m, n, if remember then y.rem + [y.ohi] else y.rem))
  {
    hide GoodWords, GoodRef, More, RootsGood, ObjectsGood, NoYoung;
    var z := WithOld(y, m, n, if remember then y.rem + [y.ohi] else y.rem);
    OldMore(y, m, n, remember, ct);
    OldMarks(y, m, n, remember, ct);
    hide Blank, Tiling;
    forall a | IsOld(z, a) && a !in z.rem
      ensures NoYoung(z, z.m, a, z.olds[a])
    {
      if a == y.ohi {
        BlankNoYoung(y, z, n, remember, ct);
      } else {
        StillThere(y, m, n, remember, ct, a);
        assert NoYoung(y, y.m, a, y.olds[a]);
        SameNoYoungBelow(y, z, a);
      }
    }
  }

  lemma StillThere(y: Before, m: seq<Word>, n: int, remember: bool, ct: int, a: int)
    requires Layout(y) && n >= 1 && y.ohi + n <= y.olimit && Blank(y.m, m, y.ohi, n, remember, ct) && a != y.ohi
    requires IsOld(WithOld(y, m, n, if remember then y.rem + [y.ohi] else y.rem), a)
    ensures IsOld(y, a)
  {
    OldMore(y, m, n, remember, ct);
  }

  lemma OldMarks(y: Before, m: seq<Word>, n: int, remember: bool, ct: int)
    requires Layout(y) && RememberedAll(y) && n >= 1 && y.ohi + n <= y.olimit && Blank(y.m, m, y.ohi, n, remember, ct) && ct != NIL
    ensures var z := WithOld(y, m, n, if remember then y.rem + [y.ohi] else y.rem);
            && (forall a :: a in z.olds && 0 <= a < |z.m| && z.m[a].Head? ==> (z.m[a].mark <==> a in z.rem))
            && (forall a :: a in z.rem ==> IsOld(z, a)) && NoDup(z.rem)
  {
    hide NoYoung;
    OldMore(y, m, n, remember, ct);
    assert y.ohi !in y.rem;
  }

  lemma BlankNoYoung(y: Before, z: Before, n: int, mark: bool, ct: int)
    requires Layout(y) && Blank(y.m, z.m, y.ohi, n, mark, ct) && !InNew(y, ct) && z.nlo == y.nlo && z.nhi == y.nhi
    ensures NoYoung(z, z.m, y.ohi, n)
  {
  }

  lemma SameNoYoungBelow(y: Before, z: Before, a: int)
    requires Layout(y) && a in y.olds && NoYoung(y, y.m, a, y.olds[a]) && z.nlo == y.nlo && z.nhi == y.nhi && |z.m| == |y.m|
    requires forall k :: 0 <= k < |z.m| && (y.olo <= k < y.ohi || y.flo <= k < y.fhi) ==> z.m[k] == y.m[k]
    ensures NoYoung(z, z.m, a, y.olds[a])
  {
  }

  // ----- a store -----

  /** Object `a`, young or old, of `n` words. */
  ghost predicate IsHere(y: Before, a: int, n: int) {
    (a in y.young && y.young[a] == n) || (IsOld(y, a) && y.olds[a] == n)
  }

  /** A reference is stored into object `a`, and stoCheck remembers the object
      if it is old and the reference young. */
  function Stored(y: Before, a: int, k: int, v: int): Before
    requires 0 <= a < |y.m| && 0 <= k < |y.m| && y.m[a].Head?
  {
    var m := y.m[k := Ref(v)];
    if y.olo <= a < y.olimit && InNew(y, v) && !y.m[a].mark then
      y.(m := m[a := y.m[a].(mark := true)], rem := y.rem + [a])
    else
      y.(m := m)
  }

  lemma StoreAt(y: Before, a: int, n: int, k: int)
    requires Layout(y) && IsHere(y, a, n) && a < k < a + n
    ensures 0 <= a < k < a + n <= |y.m| && y.m[a].Head? && k !in y.young && k !in y.olds && (y.olo <= a < y.olimit <==> a in y.olds)
    ensures a in y.olds ==> IsOld(y, a) && y.olds[a] == n && a !in y.young
    ensures forall b :: b in y.young && b != a ==> k < b || b + y.young[b] <= k
    ensures forall b :: b in y.olds && b != a ==> k < b || b + y.olds[b] <= k
  {
  }

  lemma StoreMore(y: Before, a: int, n: int, k: int, v: int)
    requires Layout(y) && IsHere(y, a, n) && a < k < a + n && 0 <= a && k < |y.m| && y.m[a].Head?
    ensures var z := Stored(y, a, k, v);
            More(y, z) && Layout(z) && (forall b :: IsOld(z, b) <==> IsOld(y, b))
  {
    hide Layout, IsHere, Stored;
    StoreAt(y, a, n, k);
    StoredHeads(y, a, k, v);
    var z := Stored(y, a, k, v);
    StoredLayout(y, z);
    forall b
      ensures IsOld(z, b) <==> IsOld(y, b)
    {
      SameOld(y, z, b);
    }
    hide IsOld;
    LayoutBase(y);
  }

  lemma LayoutBase(y: Before)
    requires Layout(y)
    ensures 1 <= y.olo
  {
  }

  /** A store leaves sizes and types as they are. */
  ghost predicate SameHeads(y: Before, z: Before) {
    && |z.m| == |y.m| && z == y.(m := z.m, rem := z.rem)
    && (forall b :: (b in y.young || b in y.olds) && 0 <= b < |y.m| ==>
          (z.m[b].Head? <==> y.m[b].Head?) && (y.m[b].Head? ==> z.m[b].size == y.m[b].size && z.m[b].ct == y.m[b].ct))
  }

  lemma StoredHeads(y: Before, a: int, k: int, v: int)
    requires 0 <= a < |y.m| && 0 <= k < |y.m| && y.m[a].Head? && k !in y.young && k !in y.olds
    ensures SameHeads(y, Stored(y, a, k, v))
  {
  }

  lemma StoredLayout(y: Before, z: Before)
    requires Layout(y) && SameHeads(y, z)
    ensures Layout(z)
  {
    hide Tiling;
    PieceBounds(y);
  }

  lemma PieceBounds(y: Before)
    requires Layout(y)
    ensures forall b :: b in y.young || b in y.olds ==> 0 <= b < |y.m|
  {
  }

  lemma SameOld(y: Before, z: Before, b: int)
    requires SameHeads(y, z)
    ensures IsOld(z, b) <==> IsOld(y, b)
  {
  }

  lemma StoreObject(y: Before, a: int, n: int, k: int, v: int, b: int, p: int)
    requires Layout(y) && IsHere(y, a, n) && a < k < a + n && 0 <= a && k < |y.m| && y.m[a].Head? && GoodRef(y, v)
    requires IsHere(y, b, p) && GoodWords(y, b, p) && p >= 1
    ensures GoodWords(Stored(y, a, k, v), b, p)
  {
    hide GoodRef, More, Layout;
    var z := Stored(y, a, k, v);
    StoreAt(y, a, n, k);
    StoreMore(y, a, n, k, v);
    RefMore(y, z, v);
    forall j | b <= j < b + p && 0 <= j < |z.m|
      ensures GoodRef(z, RefOf(z.m[j])) && (j > b ==> IsField(z.m[j])) && (j == b ==> RefOf(z.m[j]) == RefOf(y.m[j]))
    {
      StoredWord(y, a, n, k, v, b, p, j);
      RefMore(y, z, RefOf(y.m[j]));
    }
  }

  /** What a word of an object is after the store. */
  lemma StoredWord(y: Before, a: int, n: int, k: int, v: int, b: int, p: int, j: int)
    requires Layout(y) && IsHere(y, a, n) && a < k < a + n && 0 <= a && k < |y.m| && y.m[a].Head?
    requires IsHere(y, b, p) && b <= j < b + p && 0 <= j < |y.m|
    ensures var z := Stored(y, a, k, v);
            && (j == k ==> z.m[j] == Ref(v) && j > b)
            && (j != k ==> RefOf(z.m[j]) == RefOf(y.m[j]) && (IsField(z.m[j]) <==> IsField(y.m[j])))
  {
    StoreAt(y, a, n, k);
  }

  lemma StoreObjects(y: Before, a: int, n: int, k: int, v: int)
    requires Layout(y) && ObjectsGood(y) && IsHere(y, a, n) && a < k < a + n && 0 <= a && k < |y.m| && y.m[a].Head? && GoodRef(y, v)
    ensures ObjectsGood(Stored(y, a, k, v))
  {
    hide GoodWords, GoodRef, More;
    var z := Stored(y, a, k, v);
    StoreAt(y, a, n, k);
    StoreMore(y, a, n, k, v);
    forall b | b in z.young && 0 <= b < |z.m| && z.m[b].Head?
      ensures z.m[b].ct != NIL && !z.m[b].mark && GoodWords(z, b, z.young[b])
    {
      StoreObject(y, a, n, k, v, b, y.young[b]);
    }
    forall b | IsOld(z, b)
      ensures GoodWords(z, b, z.olds[b])
    {
      assert IsOld(y, b);
      StoreObject(y, a, n, k, v, b, y.olds[b]);
    }
  }

  lemma StoreRemembered(y: Before, a: int, n: int, k: int, v: int)
    requires Layout(y) && RememberedAll(y) && IsHere(y, a, n) && a < k < a + n && 0 <= a && k < |y.m| && y.m[a].Head?
    ensures RememberedAll(Stored(y, a, k, v))
  {
    hide Layout, More, NoYoung, InNew, IsHere;
    var z := Stored(y, a, k, v);
    StoreAt(y, a, n, k);
    StoreMore(y, a, n, k, v);
    StoredRem(y, a, k, v);
    StoredMarks(y, a, n, k, v);
    forall b | IsOld(z, b) && b !in z.rem
      ensures NoYoung(z, z.m, b, z.olds[b])
    {
      assert IsOld(y, b) && NoYoung(y, y.m, b, y.olds[b]);
      StoreNoYoung(y, a, n, k, v, b);
      SameSpace(y, z, z.m, b, y.olds[b]);
    }
  }

  lemma SameSpace(y: Before, z: Before, m: seq<Word>, a: int, n: int)
    requires z.nlo == y.nlo && z.nhi == y.nhi && NoYoung(y, m, a, n)
    ensures NoYoung(z, m, a, n)
  {
  }

  /** Just the remembered objects have their bit set after the store. */
  lemma StoredMarks(y: Before, a: int, n: int, k: int, v: int)
    requires RememberedAll(y) && 0 <= a < |y.m| && 0 <= k < |y.m| && y.m[a].Head? && k !in y.olds && k != a
    requires (y.olo <= a < y.olimit <==> a in y.olds) && (a in y.olds ==> IsOld(y, a))
    requires forall b :: IsOld(Stored(y, a, k, v), b) <==> IsOld(y, b)
    ensures var z := Stored(y, a, k, v);
            && (forall b :: b in z.olds && 0 <= b < |z.m| && z.m[b].Head? ==> (z.m[b].mark <==> b in z.rem))
            && (forall b :: b in z.rem ==> IsOld(z, b)) && NoDup(z.rem)
  {
    hide IsOld, NoYoung;
    StoredRem(y, a, k, v);
  }

  lemma StoredRem(y: Before, a: int, k: int, v: int)
    requires 0 <= a < |y.m| && 0 <= k < |y.m| && y.m[a].Head?
    ensures var z := Stored(y, a, k, v);
            if y.olo <= a < y.olimit && InNew(y, v) && !y.m[a].mark then z.rem == y.rem + [a] && z.m == y.m[k := Ref(v)][a := y.m[a].(mark := true)]
            else z.rem == y.rem && z.m == y.m[k := Ref(v)]
  {
  }

  lemma StoreNoYoung(y: Before, a: int, n: int, k: int, v: int, b: int)
    requires Layout(y) && RememberedAll(y) && IsHere(y, a, n) && a < k < a + n && 0 <= a && k < |y.m| && y.m[a].Head?
    requires IsOld(y, b) && NoYoung(y, y.m, b, y.olds[b]) && b !in Stored(y, a, k, v).rem
    ensures NoYoung(y, Stored(y, a, k, v).m, b, y.olds[b])
  {
    StoreAt(y, a, n, k);
  }

  /** A store with its barrier keeps the heap healthy. */
  lemma StoreHealthy(y: Before, a: int, n: int, k: int, v: int)
    requires Healthy(y) && IsHere(y, a, n) && a < k < a + n && GoodRef(y, v)
    ensures 0 <= a && k < |y.m| && y.m[a].Head? && Healthy(Stored(y, a, k, v))
  {
    hide GoodRef, More, ObjectsGood, RememberedAll, RootsGood, Layout;
    StoreAt(y, a, n, k);
    StoreMore(y, a, n, k, v);
    StoreObjects(y, a, n, k, v);
    StoreRemembered(y, a, n, k, v);
    RootsMore(y, Stored(y, a, k, v));
  }

  // ----- roots and the object table -----

  /** Roots and object table change, and everything they refer to exists. */
  lemma RootsHealthy(y: Before, roots: seq<int>, table: map<int, int>)
    requires Healthy(y) && Distinct(table)
    requires forall i :: 0 <= i < |roots| ==> GoodRef(y, roots[i])
    requires forall a :: a in table ==> GoodRef(y, table[a])
    ensures Healthy(y.(roots := roots, table := table))
    ensures FreshWords(y.(roots := roots, table := table)) == FreshWords(y) && SurvivorWords(y.(roots := roots, table := table)) == SurvivorWords(y)
  {
    var z := y.(roots := roots, table := table);
    hide GoodRef, GoodWords, NoYoung, IsOld;
    RootsMoreLayout(y, z);
    forall a | a in z.young && 0 <= a < |z.m| && z.m[a].Head?
      ensures z.m[a].ct != NIL && !z.m[a].mark && GoodWords(z, a, z.young[a])
    {
      SameHeap(y, z, a, z.young[a], 0);
    }
    forall a | IsOld(z, a)
      ensures IsOld(y, a) && a in z.olds && GoodWords(z, a, z.olds[a]) && (a !in z.rem ==> NoYoung(z, z.m, a, z.olds[a]))
    {
      SameIsOld(y, z, a);
      OldThere(y, a);
      SameHeap(y, z, a, z.olds[a], 0);
    }
    forall a | a in z.rem
      ensures IsOld(z, a)
    {
      SameIsOld(y, z, a);
    }
    forall i | 0 <= i < |roots|
      ensures GoodRef(z, roots[i])
    {
      SameHeap(y, z, 0, 0, roots[i]);
    }
    forall a | a in table
      ensures GoodRef(z, table[a])
    {
      SameHeap(y, z, 0, 0, table[a]);
    }
  }

  lemma RootsMoreLayout(y: Before, z: Before)
    requires Layout(y) && z == y.(roots := z.roots, table := z.table)
    ensures Layout(z)
  {
    hide Tiling;
  }

  lemma SameIsOld(y: Before, z: Before, a: int)
    requires z == y.(roots := z.roots, table := z.table)
    ensures IsOld(z, a) <==> IsOld(y, a)
  {
  }

  /** What is said of objects depends on neither roots nor object table. */
  lemma SameHeap(y: Before, z: Before, a: int, n: int, r: int)
    requires z == y.(roots := z.roots, table := z.table)
    ensures GoodRef(y, r) ==> GoodRef(z, r)
    ensures GoodWords(y, a, n) ==> GoodWords(z, a, n)
    ensures NoYoung(y, y.m, a, n) ==> NoYoung(z, z.m, a, n)
  {
    assert forall k :: GoodRef(y, k) ==> GoodRef(z, k);
  }
}
