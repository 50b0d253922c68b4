/** What the copying collector of the young generation (vm/gc.c) keeps true. */
module Copying {
  import opened Heap
  import opened CompactionPlan

  /** A heap before a young collection.  Young objects `young` fill `[flo, fhi)`
      of the new space `[nlo, nhi)`; `mid` divides them into survivors of the
      last collection and fresh ones, which are the lower ones if `low`.  Old
      objects `olds` fill `[olo, ohi)`, with room up to `olimit`. */
  datatype Before = Before(m: seq<Word>, young: map<int, int>, olds: map<int, int>,
                           flo: int, fhi: int, mid: int, low: bool,
                           olo: int, ohi: int, olimit: int, nlo: int, nhi: int,
                           roots: seq<int>, table: map<int, int>, rem: seq<int>)

  predicate InNew(y: Before, r: int) {
    y.nlo <= r < y.nhi
  }

  predicate IsFresh(y: Before, a: int) {
    if y.low then a < y.mid else a >= y.mid
  }

  /** An old object with a type; what has none is filler. */
  ghost predicate IsOld(y: Before, a: int) {
    a in y.olds && 0 <= a < |y.m| && y.m[a].Head? && y.m[a].ct != NIL
  }

  ghost predicate GoodRef(y: Before, r: int) {
    (InNew(y, r) ==> r in y.young) && (y.olo <= r < y.olimit ==> IsOld(y, r))
  }

  /** The words of an object are good references or data, and its type is not young. */
  ghost predicate GoodWords(y: Before, a: int, n: int) {
    && (forall k :: a <= k < a + n && 0 <= k < |y.m| ==> GoodRef(y, RefOf(y.m[k])))
    && (forall k :: a < k < a + n && 0 <= k < |y.m| ==> IsField(y.m[k]))
    && 0 <= a < |y.m| && !InNew(y, RefOf(y.m[a]))
  }

  /** No word of an object refers to the young generation. */
  ghost predicate NoYoung(y: Before, m: seq<Word>, a: int, n: int) {
    forall k :: a <= k < a + n && 0 <= k < |m| ==> !InNew(y, RefOf(m[k]))
  }

  ghost predicate Layout(y: Before) {
    && 1 <= y.olo && y.ohi <= y.olimit <= y.nlo <= y.flo <= y.mid <= y.fhi <= y.nhi <= |y.m|
    && Parsed(y.m, y.olds, y.olo, y.ohi) && Parsed(y.m, y.young, y.flo, y.fhi)
    && (y.mid == y.fhi || y.mid in y.young)
  }

  ghost predicate ObjectsGood(y: Before) {
    && (forall a :: a in y.young && 0 <= a < |y.m| && y.m[a].Head? ==> y.m[a].ct != NIL && !y.m[a].mark && GoodWords(y, a, y.young[a]))
    && (forall a :: IsOld(y, a) ==> GoodWords(y, a, y.olds[a]))
  }

  /** Just the remembered objects have their bit set, and no other old object
      refers to the young generation. */
  ghost predicate RememberedAll(y: Before) {
    && (forall a :: a in y.olds && 0 <= a < |y.m| && y.m[a].Head? ==> (y.m[a].mark <==> a in y.rem))
    && (forall a :: a in y.rem ==> IsOld(y, a)) && NoDup(y.rem)
    && (forall a :: IsOld(y, a) && a !in y.rem ==> NoYoung(y, y.m, a, y.olds[a]))
  }

  ghost predicate Distinct(table: map<int, int>) {
    forall a, b :: a in table && b in table && a != b ==> table[a] != table[b]
  }

  ghost predicate RootsGood(y: Before) {
    && (forall i :: 0 <= i < |y.roots| ==> GoodRef(y, y.roots[i]))
    && (forall a :: a in y.table ==> GoodRef(y, y.table[a])) && Distinct(y.table)
  }

  /** A heap between collections. */
  ghost predicate Healthy(y: Before) {
    Layout(y) && ObjectsGood(y) && RememberedAll(y) && RootsGood(y)
  }

  // ----- what is to be copied -----

  ghost predicate HoldsWords(y: Before, x: set<int>, a: int, n: int) {
    forall k :: a <= k < a + n && 0 <= k < |y.m| && InNew(y, RefOf(y.m[k])) ==> RefOf(y.m[k]) in x
  }

  /** `x` contains the young objects that remembered objects, roots and object
      table entries refer to, and is closed under references. */
  ghost predicate Closed(y: Before, x: set<int>) {
    && (forall a :: a in y.rem && a in y.olds ==> HoldsWords(y, x, a, y.olds[a]))
    && (forall i :: 0 <= i < |y.roots| && InNew(y, y.roots[i]) ==> y.roots[i] in x)
    && (forall a :: a in y.table && InNew(y, y.table[a]) ==> y.table[a] in x)
    && (forall a :: a in x && a in y.young ==> HoldsWords(y, x, a, y.young[a]))
  }

  /** Word by word: every young address that a root or a table entry is, or a word
      of a remembered object names, is in `x`, and every one that a word of an
      object in `x` names. */
  lemma ClosedMeans(y: Before, x: set<int>)
    requires Healthy(y)
    ensures Closed(y, x) <==>
      && (forall i :: 0 <= i < |y.roots| && y.nlo <= y.roots[i] < y.nhi ==> y.roots[i] in x)
      && (forall o :: o in y.table && y.nlo <= y.table[o] < y.nhi ==> y.table[o] in x)
      && (forall a, k :: a in y.rem && a in y.olds && a < k < a + y.olds[a] && y.m[k].Ref? && y.nlo <= y.m[k].target < y.nhi ==> y.m[k].target in x)
      && (forall a, k :: a in x && a in y.young && a < k < a + y.young[a] && y.m[k].Ref? && y.nlo <= y.m[k].target < y.nhi ==> y.m[k].target in x)
  {
    hide GoodRef, NoYoung, RootsGood;
    forall a | a in y.rem && a in y.olds
      ensures HoldsWords(y, x, a, y.olds[a]) <==>
                forall k :: a < k < a + y.olds[a] && y.m[k].Ref? && y.nlo <= y.m[k].target < y.nhi ==> y.m[k].target in x
    {
      assert IsOld(y, a);
      HoldsMeans(y, x, a, y.olds[a]);
    }
    forall a | a in x && a in y.young
      ensures HoldsWords(y, x, a, y.young[a]) <==>
                forall k :: a < k < a + y.young[a] && y.m[k].Ref? && y.nlo <= y.m[k].target < y.nhi ==> y.m[k].target in x
    {
      assert y.m[a].Head?;
      HoldsMeans(y, x, a, y.young[a]);
    }
  }

  lemma HoldsMeans(y: Before, x: set<int>, a: int, n: int)
    requires GoodWords(y, a, n) && a + n <= |y.m| && 0 <= y.nlo
    ensures HoldsWords(y, x, a, n) <==>
              forall k :: a < k < a + n && y.m[k].Ref? && y.nlo <= y.m[k].target < y.nhi ==> y.m[k].target in x
  {
    hide GoodRef;
  }

  /** Word by word, for a word of an old object: a young object it names is there,
      and then the object is in the remembered set with its bit set; an old one it
      names is there and has a type. */
  lemma OldWordMeans(y: Before, a: int, k: int)
    requires Healthy(y) && a in y.olds && y.m[a].Head? && y.m[a].ct != -1 && a < k < a + y.olds[a] <= |y.m| && 0 <= a
    ensures (y.m[k].Ref? || y.m[k].Data?) && (y.m[a].mark <==> a in y.rem)
    ensures y.m[k].Ref? && y.nlo <= y.m[k].target < y.nhi ==> y.m[k].target in y.young && a in y.rem && y.m[a].mark
    ensures y.m[k].Ref? && y.olo <= y.m[k].target < y.olimit ==> y.m[k].target in y.olds && 0 <= y.m[k].target < |y.m|
    ensures y.m[k].Ref? && y.olo <= y.m[k].target < y.olimit ==> y.m[y.m[k].target].Head? && y.m[y.m[k].target].ct != -1
  {
    assert IsOld(y, a);
    assert RefOf(y.m[k]) == if y.m[k].Ref? then y.m[k].target else RefOf(y.m[k]);
  }

  /** The same for a word of a young object. */
  lemma YoungWordMeans(y: Before, a: int, k: int)
    requires Healthy(y) && a in y.young && a < k < a + y.young[a] <= |y.m| && 0 <= a
    ensures y.m[k].Ref? || y.m[k].Data?
    ensures y.m[k].Ref? && y.nlo <= y.m[k].target < y.nhi ==> y.m[k].target in y.young
    ensures y.m[k].Ref? && y.olo <= y.m[k].target < y.olimit ==> y.m[k].target in y.olds && 0 <= y.m[k].target < |y.m|
    ensures y.m[k].Ref? && y.olo <= y.m[k].target < y.olimit ==> y.m[y.m[k].target].Head? && y.m[y.m[k].target].ct != -1
  {
    assert y.m[a].Head?;
    assert RefOf(y.m[k]) == if y.m[k].Ref? then y.m[k].target else RefOf(y.m[k]);
  }

  /** Every closed set that contains `x` contains `r`. */
  ghost predicate Forced(y: Before, x: set<int>, r: int) {
    forall c: set<int> :: Closed(y, c) && x <= c ==> r in c
  }

  ghost predicate Reached(y: Before, a: int) {
    forall c: set<int> :: Closed(y, c) ==> a in c
  }

  // ----- a collection under way -----

  /** `to`: the new places; `src`: for every finished word, the word it came
      from; `oldNow`, `newNow`: the objects now in the old generation and in
      to-space; `seen`: the remembered objects that have been gone through. */
  datatype Copy = Copy(m: seq<Word>, to: map<int, int>, src: map<int, int>,
                       oldNow: map<int, int>, newNow: map<int, int>,
                       ng: int, tlo: int, thi: int, rem: seq<int>, stack: seq<int>, seen: set<int>)

  ghost predicate Shape(y: Before, c: Copy) {
    && |c.m| == |y.m| && y.ohi <= c.ng <= y.olimit && y.nlo <= c.tlo <= c.thi <= y.nhi
    && (c.thi <= y.flo || y.fhi <= c.tlo)
    && Tiling(c.oldNow, y.olo, c.ng) && Tiling(c.newNow, c.tlo, c.thi)
    && (forall a :: a in y.olds ==> a in c.oldNow && c.oldNow[a] == y.olds[a])
  }

  ghost predicate IsTarget(to: map<int, int>, t: int) {
    exists a :: a in to && to[a] == t
  }

  ghost predicate InPlace(y: Before, c: Copy, a: int)
    requires a in c.to && a in y.young
  {
    var t := c.to[a];
    if IsFresh(y, a) then t in c.newNow && c.newNow[t] == y.young[a]
    else t in c.oldNow && t >= y.ohi && c.oldNow[t] == y.young[a]
  }

  /** Fresh objects go to to-space, survivors to the old generation. */
  ghost predicate Targets(y: Before, c: Copy) {
    && (forall a :: a in c.to ==> a in y.young && InPlace(y, c, a))
    && (forall a, b :: a in c.to && b in c.to && a != b ==> c.to[a] != c.to[b])
    && (forall t :: t in c.newNow ==> IsTarget(c.to, t))
    && (forall t :: t in c.oldNow && t >= y.ohi ==> IsTarget(c.to, t))
  }

  /** From-space is as it was, but for the forwarding pointers. */
  ghost predicate FromKept(y: Before, c: Copy) {
    forall k :: y.flo <= k < y.fhi && 0 <= k < |c.m| && k < |y.m| ==> c.m[k] == if k in c.to then Forward(c.to[k]) else y.m[k]
  }

  ghost predicate Settled(y: Before, to: map<int, int>, r: int) {
    InNew(y, r) ==> r in to
  }

  /** A finished word is its source with the reference renamed for good. */
  ghost predicate WordsDone(y: Before, c: Copy) {
    forall d :: d in c.src ==> && 0 <= d < |c.m| && (d < c.ng || c.tlo <= d < c.thi) && 0 <= c.src[d] < |y.m|
                               && d !in c.oldNow && d !in c.newNow
                               && c.m[d] == MapWord(c.to, y.m[c.src[d]]) && Settled(y, c.to, RefOf(y.m[c.src[d]]))
  }

  /** Flags words: as before, but for the remembered bit. */
  ghost predicate Heads(y: Before, c: Copy) {
    && (forall a :: a in c.to && 0 <= a < |y.m| ==> 0 <= c.to[a] < |c.m| && y.m[a].Head? && c.m[c.to[a]] == y.m[a].(mark := c.to[a] in c.rem))
    && (forall a :: a in y.olds && 0 <= a < |y.m| && a < |c.m| ==> y.m[a].Head? && c.m[a] == y.m[a].(mark := a in c.rem))
  }

  ghost predicate OldKept(y: Before, c: Copy) {
    forall k :: y.olo <= k < y.ohi && 0 <= k < |c.m| && k < |y.m| && k !in c.src && k !in y.olds ==> c.m[k] == y.m[k]
  }

  /** All words of the object at `t`, but the first, are finished copies of those at `a`. */
  ghost predicate Finished(src: map<int, int>, a: int, t: int, n: int) {
    forall d :: t < d < t + n ==> d in src && src[d] == d - t + a
  }

  ghost predicate Unfinished(src: map<int, int>, t: int, n: int) {
    forall d :: t < d < t + n ==> d !in src
  }

  /** Objects that have been copied are finished, unless waiting or in `open`. */
  ghost predicate Scanned(y: Before, c: Copy, open: set<int>) {
    && NoDup(c.stack)
    && (forall a :: a in c.stack ==> a in c.to && a in y.young && a !in open && Unfinished(c.src, c.to[a], y.young[a]))
    && (forall a :: a in c.to && a in y.young && a !in c.stack && a !in open ==> Finished(c.src, a, c.to[a], y.young[a]))
  }

  /** The same of the remembered objects, which stay where they are. */
  ghost predicate OldScanned(y: Before, c: Copy, open: set<int>) {
    && (forall o :: o in y.olds && o in c.seen ==> Finished(c.src, o, o, y.olds[o]))
    && (forall o :: o in y.olds && o !in c.seen && o !in open ==> Unfinished(c.src, o, y.olds[o]))
    && (forall o :: o in y.olds && o in c.seen && o !in c.rem ==> NoYoung(y, c.m, o, y.olds[o]))
  }

  /** A promoted object that refers to to-space is remembered. */
  ghost predicate Noted(y: Before, c: Copy, open: set<int>) {
    forall a :: a in c.to && a in y.young && !IsFresh(y, a) && a !in c.stack && a !in open && c.to[a] !in c.rem
                ==> NoYoung(y, c.m, c.to[a], y.young[a])
  }

  /** Only old objects are remembered, each once; members struck out are NIL. */
  ghost predicate RemSound(y: Before, c: Copy) {
    && (forall i :: 0 <= i < |c.rem| && c.rem[i] != NIL ==> c.rem[i] in c.oldNow && (c.rem[i] < y.ohi ==> IsOld(y, c.rem[i])))
    && (forall i, j :: 0 <= i < j < |c.rem| && c.rem[i] != NIL ==> c.rem[i] != c.rem[j])
  }

  ghost function FreshOf(y: Before, to: map<int, int>): set<int> {
    set a | a in to && IsFresh(y, a)
  }

  ghost function AgedOf(y: Before, to: map<int, int>): set<int> {
    set a | a in to && !IsFresh(y, a)
  }

  /** How much has been copied where. */
  ghost predicate Amounts(y: Before, c: Copy) {
    && c.thi - c.tlo == LiveWords(FreshOf(y, c.to), y.young, y.flo, y.fhi)
    && c.ng - y.ohi == LiveWords(AgedOf(y, c.to), y.young, y.flo, y.fhi)
  }

  ghost predicate OnlyReached(y: Before, to: map<int, int>) {
    forall x: set<int> :: Closed(y, x) ==> to.Keys <= x
  }

  /** Everything the collection keeps true; the objects in `open` are being scanned. */
  ghost predicate InCopying(y: Before, c: Copy, open: set<int>) {
    && Healthy(y) && Shape(y, c) && Targets(y, c) && FromKept(y, c) && WordsDone(y, c) && Heads(y, c) && OldKept(y, c)
    && Scanned(y, c, open) && OldScanned(y, c, open) && Noted(y, c, open)
    && RemSound(y, c) && Amounts(y, c) && OnlyReached(y, c.to)
  }

  // ----- tilings grow at either end -----

  lemma TilingPrepend(len: map<int, int>, lo: int, hi: int, n: int)
    requires Tiling(len, lo, hi) && n >= 1
    ensures Tiling(len[lo - n := n], lo - n, hi) && lo - n !in len
  {
    var len' := len[lo - n := n];
    assert lo - n !in len;
    forall a | a in len'
      ensures lo - n <= a < a + len'[a] <= hi && Followed(len', a, hi)
    {
      if a != lo - n {
        assert Followed(len, a, hi);
      }
    }
  }

  /** Whatever is in the part below `mid` fits there ... */
  lemma {:induction false} LiveBelow(live: set<int>, len: map<int, int>, lo: int, hi: int, mid: int, a: int)
    requires Tiling(len, lo, hi) && (a == hi || a in len) && (mid == hi || mid in len)
    requires forall x :: x in live ==> x < mid
    ensures LiveWords(live, len, a, hi) <= if a <= mid then mid - a else 0
    decreases hi - a
  {
    if a < hi {
      assert Followed(len, a, hi);
      LiveBelow(live, len, lo, hi, mid, a + len[a]);
    }
  }

  /** ... and the same above it. */
  lemma {:induction false} LiveAbove(live: set<int>, len: map<int, int>, lo: int, hi: int, mid: int, a: int)
    requires Tiling(len, lo, hi) && (a == hi || a in len) && (mid == hi || mid in len)
    requires forall x :: x in live ==> x >= mid
    ensures LiveWords(live, len, a, hi) <= if a <= mid then hi - mid else hi - a
    decreases hi - a
  {
    if a < hi {
      assert Followed(len, a, hi);
      LiveAbove(live, len, lo, hi, mid, a + len[a]);
    }
  }

  /** The words of the fresh objects, and of the survivors. */
  function FreshWords(y: Before): int {
    if y.low then y.mid - y.flo else y.fhi - y.mid
  }

  function SurvivorWords(y: Before): int {
    if y.low then y.fhi - y.mid else y.mid - y.flo
  }

  lemma AmountsFit(y: Before, c: Copy)
    requires Layout(y) && Amounts(y, c)
    ensures c.thi - c.tlo <= FreshWords(y) && c.ng - y.ohi <= SurvivorWords(y)
  {
    var newer, aged := FreshOf(y, c.to), AgedOf(y, c.to);
    if y.low {
      LiveBelow(newer, y.young, y.flo, y.fhi, y.mid, y.flo);
      LiveAbove(aged, y.young, y.flo, y.fhi, y.mid, y.flo);
    } else {
      LiveAbove(newer, y.young, y.flo, y.fhi, y.mid, y.flo);
      LiveBelow(aged, y.young, y.flo, y.fhi, y.mid, y.flo);
    }
  }

  /** If another object is still to be copied, there is room for it. */
  lemma RoomFor(y: Before, c: Copy, r: int)
    requires Layout(y) && Amounts(y, c) && r in y.young && r !in c.to
    ensures IsFresh(y, r) ==> c.thi - c.tlo + y.young[r] <= FreshWords(y)
    ensures !IsFresh(y, r) ==> c.ng - y.ohi + y.young[r] <= SurvivorWords(y)
    ensures Amounts(y, c.(to := c.to[r := 0],
                          thi := if IsFresh(y, r) then c.thi + y.young[r] else c.thi,
                          ng := if IsFresh(y, r) then c.ng else c.ng + y.young[r]))
  {
    var newer, aged := FreshOf(y, c.to), AgedOf(y, c.to);
    var to' := c.to[r := 0];
    var c' := c.(to := to', thi := if IsFresh(y, r) then c.thi + y.young[r] else c.thi,
                            ng := if IsFresh(y, r) then c.ng else c.ng + y.young[r]);
    if IsFresh(y, r) {
      assert FreshOf(y, to') == newer + {r};
      assert AgedOf(y, to') == aged;
      LiveAdd(newer, y.young, y.flo, y.fhi, y.flo, r, 0);
    } else {
      assert FreshOf(y, to') == newer;
      assert AgedOf(y, to') == aged + {r};
      LiveAdd(aged, y.young, y.flo, y.fhi, y.flo, r, 0);
    }
    AmountsFit(y, c');
  }

  // ----- an object is copied -----

  /** Where the next object goes: to-space grows upwards or downwards. */
  function Place(y: Before, c: Copy, r: int, up: bool): int
    requires r in y.young
  {
    if !IsFresh(y, r) then c.ng else if up then c.thi else c.tlo - y.young[r]
  }

  /** There is room for it. */
  ghost predicate Room(y: Before, c: Copy, r: int, up: bool)
    requires r in y.young
  {
    var n := y.young[r];
    if !IsFresh(y, r) then c.ng + n <= y.olimit
    else if up then c.thi + n <= y.nhi && (c.thi + n <= y.flo || y.fhi <= c.tlo)
    else y.nlo <= c.tlo - n && (c.thi <= y.flo || y.fhi <= c.tlo - n)
  }

  /** The state after object `r` has been copied there. */
  function Placed(y: Before, c: Copy, r: int, up: bool): (c': Copy)
    requires r in y.young && 0 <= r < |c.m| && 0 <= Place(y, c, r, up) < |c.m|
    ensures |c'.m| == |c.m|
  {
    var t, n := Place(y, c, r, up), y.young[r];
    c.(m := c.m[t := c.m[r]][r := Forward(t)], to := c.to[r := t], stack := c.stack + [r],
       oldNow := if IsFresh(y, r) then c.oldNow else c.oldNow[t := n],
       newNow := if IsFresh(y, r) then c.newNow[t := n] else c.newNow,
       ng := if IsFresh(y, r) then c.ng else c.ng + n,
       tlo := if IsFresh(y, r) && !up then c.tlo - n else c.tlo,
       thi := if IsFresh(y, r) && up then c.thi + n else c.thi)
  }

  lemma PlacedParts(y: Before, c: Copy, r: int, up: bool, t: int)
    requires r in y.young && 0 <= r < |c.m| && 0 <= Place(y, c, r, up) < |c.m| && t == Place(y, c, r, up)
    ensures var c', n := Placed(y, c, r, up), y.young[r];
            && c'.m == c.m[t := c.m[r]][r := Forward(t)] && c'.to == c.to[r := t] && c'.stack == c.stack + [r]
            && c'.oldNow == (if IsFresh(y, r) then c.oldNow else c.oldNow[t := n])
            && c'.newNow == (if IsFresh(y, r) then c.newNow[t := n] else c.newNow)
            && c'.ng == (if IsFresh(y, r) then c.ng else c.ng + n)
            && c'.tlo == (if IsFresh(y, r) && !up then c.tlo - n else c.tlo)
            && c'.thi == (if IsFresh(y, r) && up then c.thi + n else c.thi)
            && c' == Copy(c'.m, c'.to, c.src, c'.oldNow, c'.newNow, c'.ng, c'.tlo, c'.thi, c.rem, c'.stack, c.seen)
  {
  }

  /** Where everything is. */
  ghost predicate Bounds(y: Before, c: Copy) {
    && |c.m| == |y.m| && 1 <= y.olo <= y.ohi <= c.ng <= y.olimit <= y.nlo <= y.flo <= y.fhi <= y.nhi <= |y.m|
    && y.nlo <= c.tlo <= c.thi <= y.nhi && (c.thi <= y.flo || y.fhi <= c.tlo)
    && (forall t :: t in c.oldNow ==> y.olo <= t < t + c.oldNow[t] <= c.ng)
    && (forall t :: t in c.newNow ==> c.tlo <= t < t + c.newNow[t] <= c.thi)
    && (forall a :: a in y.young ==> y.flo <= a < a + y.young[a] <= y.fhi && y.m[a].Head? && y.m[a].size == y.young[a])
    && (forall a :: a in y.olds ==> y.olo <= a < a + y.olds[a] <= y.ohi && a in c.oldNow && c.oldNow[a] == y.olds[a] && y.m[a].Head?)
  }

  lemma BoundsOf(y: Before, c: Copy)
    requires Layout(y) && Shape(y, c)
    ensures Bounds(y, c)
  {
  }

  /** The place is outside everything there is. */
  lemma PlaceFree(y: Before, c: Copy, r: int, up: bool)
    requires Bounds(y, c) && r in y.young && Room(y, c, r, up)
    ensures var t := Place(y, c, r, up);
            && 0 <= t < |c.m| && y.ohi <= t && y.flo <= r < y.fhi && y.young[r] >= 1
            && t !in c.oldNow && t !in c.newNow && (t < y.flo || t >= y.fhi) && t >= c.ng && (t < c.tlo || t >= c.thi)
    ensures r !in c.oldNow && r !in c.newNow
  {
    assert y.flo <= r < r + y.young[r] <= y.fhi;
  }

  lemma PlaceShape(y: Before, c: Copy, r: int, up: bool)
    requires Layout(y) && Shape(y, c) && r in y.young && Room(y, c, r, up)
    requires 0 <= r < |c.m| && 0 <= Place(y, c, r, up) < |c.m|
    ensures Shape(y, Placed(y, c, r, up)) && Bounds(y, Placed(y, c, r, up))
  {
    var n := y.young[r];
    BoundsOf(y, c);
    PlaceFree(y, c, r, up);
    PlaceTilings(y, c, r, up);
    PlaceShapeFrom(y, c, r, up);
    BoundsOf(y, Placed(y, c, r, up));
  }

  lemma PlaceTilings(y: Before, c: Copy, r: int, up: bool)
    requires Tiling(c.oldNow, y.olo, c.ng) && Tiling(c.newNow, c.tlo, c.thi) && r in y.young && y.young[r] >= 1
    requires 0 <= r < |c.m| && 0 <= Place(y, c, r, up) < |c.m|
    ensures var c' := Placed(y, c, r, up); Tiling(c'.oldNow, y.olo, c'.ng) && Tiling(c'.newNow, c'.tlo, c'.thi)
  {
    hide Tiling;
    var n := y.young[r];
    if !IsFresh(y, r) {
      TilingAppend(c.oldNow, y.olo, c.ng, n);
    } else if up {
      TilingAppend(c.newNow, c.tlo, c.thi, n);
    } else {
      TilingPrepend(c.newNow, c.tlo, c.thi, n);
    }
  }

  lemma PlaceShapeFrom(y: Before, c: Copy, r: int, up: bool)
    requires Bounds(y, c) && Shape(y, c) && r in y.young && Room(y, c, r, up)
    requires 0 <= r < |c.m| && 0 <= Place(y, c, r, up) < |c.m|
    requires var c' := Placed(y, c, r, up); Tiling(c'.oldNow, y.olo, c'.ng) && Tiling(c'.newNow, c'.tlo, c'.thi)
    ensures Shape(y, Placed(y, c, r, up))
  {
    hide Tiling;
    assert y.flo <= r < r + y.young[r] <= y.fhi;
  }

  lemma PlaceTargets(y: Before, c: Copy, r: int, up: bool)
    requires Bounds(y, c) && Targets(y, c) && r in y.young && r !in c.to && Room(y, c, r, up)
    requires 0 <= r < |c.m| && 0 <= Place(y, c, r, up) < |c.m|
    ensures Targets(y, Placed(y, c, r, up))
  {
    hide Targets, Placed, Place, Bounds;
    PlaceIn(y, c, r, up);
    PlaceReach(y, c, r, up);
    TargetsFrom(y, Placed(y, c, r, up));
  }

  lemma TargetsFrom(y: Before, c: Copy)
    requires forall a :: a in c.to ==> a in y.young && InPlace(y, c, a)
    requires forall a, b :: a in c.to && b in c.to && a != b ==> c.to[a] != c.to[b]
    requires forall t :: t in c.newNow ==> IsTarget(c.to, t)
    requires forall t :: t in c.oldNow && t >= y.ohi ==> IsTarget(c.to, t)
    ensures Targets(y, c)
  {
    hide InPlace, IsTarget;
  }

  /** New places are where Targets says. */
  lemma TargetsIn(y: Before, c: Copy)
    requires Targets(y, c)
    ensures forall a :: a in c.to ==> a in y.young && (c.to[a] in c.oldNow || c.to[a] in c.newNow)
  {
    forall a | a in c.to
      ensures a in y.young && (c.to[a] in c.oldNow || c.to[a] in c.newNow)
    {
      assert InPlace(y, c, a);
    }
  }

  lemma PlaceIn(y: Before, c: Copy, r: int, up: bool)
    requires Bounds(y, c) && Targets(y, c) && r in y.young && r !in c.to && Room(y, c, r, up)
    requires 0 <= r < |c.m| && 0 <= Place(y, c, r, up) < |c.m|
    ensures forall a :: a in Placed(y, c, r, up).to ==> a in y.young && InPlace(y, Placed(y, c, r, up), a)
    ensures forall a, b :: a in Placed(y, c, r, up).to && b in Placed(y, c, r, up).to && a != b ==> Placed(y, c, r, up).to[a] != Placed(y, c, r, up).to[b]
  {
    PlaceFree(y, c, r, up);
    PlaceAged(y, c, r, up);
    PlacedParts(y, c, r, up, Place(y, c, r, up));
    hide Placed, Bounds, Place, Room;
    var c' := Placed(y, c, r, up);
    forall a | a in c'.to
      ensures a in y.young && InPlace(y, c', a)
    {
      assert a != r ==> InPlace(y, c, a);
    }
    TargetsIn(y, c);
    assert forall a :: a in c.to ==> c.to[a] != c'.to[r];
  }

  lemma PlaceAged(y: Before, c: Copy, r: int, up: bool)
    requires r in y.young && Bounds(y, c)
    ensures !IsFresh(y, r) ==> Place(y, c, r, up) == c.ng >= y.ohi
  {
  }

  lemma PlaceReach(y: Before, c: Copy, r: int, up: bool)
    requires Targets(y, c) && r in y.young && r !in c.to
    requires 0 <= r < |c.m| && 0 <= Place(y, c, r, up) < |c.m|
    ensures var c' := Placed(y, c, r, up); forall t :: t in c'.newNow || (t in c'.oldNow && t >= y.ohi) ==> IsTarget(c'.to, t)
  {
    var p := Place(y, c, r, up);
    PlacedParts(y, c, r, up, p);
    hide Placed, Place;
    var c' := Placed(y, c, r, up);
    assert c'.to[r] == p;
    forall t | t in c'.newNow || (t in c'.oldNow && t >= y.ohi)
      ensures IsTarget(c'.to, t)
    {
      if t != p {
        assert IsTarget(c.to, t);
        var a :| a in c.to && c.to[a] == t;
        assert c'.to[a] == t;
      }
    }
  }

  lemma PlaceWords(y: Before, c: Copy, r: int, up: bool)
    requires Bounds(y, c) && WordsDone(y, c) && r in y.young && r !in c.to && Room(y, c, r, up)
    requires 0 <= r < |c.m| && 0 <= Place(y, c, r, up) < |c.m|
    ensures WordsDone(y, Placed(y, c, r, up))
  {
    PlaceFree(y, c, r, up);
    PlaceInNew(y, c, r);
    PlacedParts(y, c, r, up, Place(y, c, r, up));
    hide Placed, Place, Room, Bounds, WordsDone;
    var c' := Placed(y, c, r, up);
    forall d | d in c'.src
      ensures 0 <= d < |c'.m| && (d < c'.ng || c'.tlo <= d < c'.thi) && 0 <= c'.src[d] < |y.m| && d !in c'.oldNow && d !in c'.newNow
      ensures c'.m[d] == MapWord(c'.to, y.m[c'.src[d]]) && Settled(y, c'.to, RefOf(y.m[c'.src[d]]))
    {
      WordAt(y, c, d, r);
      SettledWord(y, c.to, r, c'.to[r], y.m[c.src[d]]);
    }
    hide Settled;
    WordsFrom(y, c');
  }

  /** A finished word is in no object that is still to be copied. */
  lemma WordAt(y: Before, c: Copy, d: int, r: int)
    requires WordsDone(y, c) && Bounds(y, c) && d in c.src && r in y.young
    ensures d != r && 0 <= d < |c.m| && (d < c.ng || c.tlo <= d < c.thi) && 0 <= c.src[d] < |y.m| && d !in c.oldNow && d !in c.newNow
    ensures c.m[d] == MapWord(c.to, y.m[c.src[d]]) && Settled(y, c.to, RefOf(y.m[c.src[d]]))
  {
  }

  lemma WordsFrom(y: Before, c: Copy)
    requires forall d :: d in c.src ==> 0 <= d < |c.m| && (d < c.ng || c.tlo <= d < c.thi) && 0 <= c.src[d] < |y.m| && d !in c.oldNow && d !in c.newNow
    requires forall d :: d in c.src ==> c.m[d] == MapWord(c.to, y.m[c.src[d]]) && Settled(y, c.to, RefOf(y.m[c.src[d]]))
    ensures WordsDone(y, c)
  {
    hide Settled, MapWord;
  }

  lemma PlaceInNew(y: Before, c: Copy, r: int)
    requires Bounds(y, c) && r in y.young
    ensures InNew(y, r) && y.young[r] >= 1
  {
  }

  /** A settled word is not affected by a new place. */
  lemma SettledWord(y: Before, to: map<int, int>, r: int, t: int, w: Word)
    requires Settled(y, to, RefOf(w)) && InNew(y, r) && r !in to
    ensures MapWord(to[r := t], w) == MapWord(to, w) && Settled(y, to[r := t], RefOf(w))
  {
  }

  lemma PlaceKept(y: Before, c: Copy, r: int, up: bool)
    requires Bounds(y, c) && FromKept(y, c) && OldKept(y, c) && r in y.young && r !in c.to && Room(y, c, r, up)
    requires 0 <= r < |c.m| && 0 <= Place(y, c, r, up) < |c.m|
    ensures FromKept(y, Placed(y, c, r, up)) && OldKept(y, Placed(y, c, r, up))
  {
    PlaceFree(y, c, r, up);
  }

  lemma PlaceHeads(y: Before, c: Copy, r: int, up: bool)
    requires Bounds(y, c) && ObjectsGood(y) && Targets(y, c) && Heads(y, c) && RemSound(y, c)
    requires r in y.young && r !in c.to && Room(y, c, r, up) && 0 <= r < |c.m| && 0 <= Place(y, c, r, up) < |c.m|
    requires c.m[r] == y.m[r]
    ensures Heads(y, Placed(y, c, r, up))
  {
    PlaceFree(y, c, r, up);
    var c', t := Placed(y, c, r, up), Place(y, c, r, up);
    PlacedParts(y, c, r, up, t);
    NotInRem(y, c, t);
    TargetsIn(y, c);
    assert y.m[r].Head? && !y.m[r].mark;
    hide RemSound, Placed, Place, Targets, ObjectsGood, Room;
    BoundsOlds(y, c);
    hide Bounds, Heads;
    forall a | a in c'.to && 0 <= a < |y.m|
      ensures 0 <= c'.to[a] < |c'.m| && y.m[a].Head? && c'.m[c'.to[a]] == y.m[a].(mark := c'.to[a] in c'.rem)
    {
      if a != r {
        HeadAt(y, c, a);
        assert c.to[a] != t && c.to[a] != r;
      }
    }
    forall a | a in y.olds && 0 <= a < |y.m| && a < |c'.m|
      ensures y.m[a].Head? && c'.m[a] == y.m[a].(mark := a in c'.rem)
    {
      OldHeadAt(y, c, a);
    }
    HeadsFrom(y, c');
  }

  lemma HeadAt(y: Before, c: Copy, a: int)
    requires Heads(y, c) && a in c.to && 0 <= a < |y.m|
    ensures 0 <= c.to[a] < |c.m| && y.m[a].Head? && c.m[c.to[a]] == y.m[a].(mark := c.to[a] in c.rem)
  {
  }

  lemma OldHeadAt(y: Before, c: Copy, a: int)
    requires Heads(y, c) && a in y.olds && 0 <= a < |y.m| && a < |c.m|
    ensures y.m[a].Head? && c.m[a] == y.m[a].(mark := a in c.rem)
  {
  }

  lemma HeadsFrom(y: Before, c: Copy)
    requires forall a :: a in c.to && 0 <= a < |y.m| ==> 0 <= c.to[a] < |c.m| && y.m[a].Head? && c.m[c.to[a]] == y.m[a].(mark := c.to[a] in c.rem)
    requires forall a :: a in y.olds && 0 <= a < |y.m| && a < |c.m| ==> y.m[a].Head? && c.m[a] == y.m[a].(mark := a in c.rem)
    ensures Heads(y, c)
  {
  }

  lemma BoundsOlds(y: Before, c: Copy)
    requires Bounds(y, c)
    ensures |c.m| == |y.m| && forall a :: a in y.olds ==> a in c.oldNow
  {
  }

  lemma NotInRem(y: Before, c: Copy, t: int)
    requires RemSound(y, c) && t !in c.oldNow && t != NIL
    ensures t !in c.rem
  {
  }

  lemma PlaceRem(y: Before, c: Copy, r: int, up: bool)
    requires RemSound(y, c) && Bounds(y, c) && r in y.young && Room(y, c, r, up) && 0 <= r < |c.m| && 0 <= Place(y, c, r, up) < |c.m|
    ensures RemSound(y, Placed(y, c, r, up))
  {
  }

  lemma PlaceScanned(y: Before, c: Copy, open: set<int>, r: int, up: bool)
    requires Bounds(y, c) && WordsDone(y, c) && Scanned(y, c, open) && OldScanned(y, c, open) && Noted(y, c, open)
    requires Targets(y, c)
    requires r in y.young && r !in c.to && r !in open && Room(y, c, r, up) && 0 <= r < |c.m| && 0 <= Place(y, c, r, up) < |c.m|
    ensures Scanned(y, Placed(y, c, r, up), open) && OldScanned(y, Placed(y, c, r, up), open) && Noted(y, Placed(y, c, r, up), open)
  {
    PlaceFree(y, c, r, up);
    var c', t := Placed(y, c, r, up), Place(y, c, r, up);
    assert forall a :: a in c'.stack <==> a in c.stack || a == r;
    PlaceNotRead(y, c, open, r, up);
    forall d | t < d < t + y.young[r]
      ensures d !in c.src
    {
    }
  }

  /** The object and its place are no part of what is known to be free of
      references to the young generation. */
  lemma PlaceNotRead(y: Before, c: Copy, open: set<int>, r: int, up: bool)
    requires Bounds(y, c) && Targets(y, c) && OldScanned(y, c, open) && Noted(y, c, open)
    requires r in y.young && r !in c.to && Room(y, c, r, up) && 0 <= r < |c.m| && 0 <= Place(y, c, r, up) < |c.m|
    ensures forall o :: o in y.olds && o in c.seen && o !in c.rem ==> NoYoung(y, Placed(y, c, r, up).m, o, y.olds[o])
    ensures forall a :: a in c.to && a in y.young && !IsFresh(y, a) && a !in c.stack && a !in open && c.to[a] !in c.rem
                        ==> NoYoung(y, Placed(y, c, r, up).m, c.to[a], y.young[a])
  {
    PlaceFree(y, c, r, up);
    var m' := Placed(y, c, r, up).m;
    forall o | o in y.olds && o in c.seen && o !in c.rem
      ensures NoYoung(y, m', o, y.olds[o])
    {
      assert NoYoung(y, c.m, o, y.olds[o]);
    }
    forall a | a in c.to && a in y.young && !IsFresh(y, a) && a !in c.stack && a !in open && c.to[a] !in c.rem
      ensures NoYoung(y, m', c.to[a], y.young[a])
    {
      assert NoYoung(y, c.m, c.to[a], y.young[a]) && InPlace(y, c, a);
      assert c.to[a] + y.young[a] <= c.ng;
    }
  }

  lemma PlaceReached(y: Before, to: map<int, int>, r: int, t: int)
    requires OnlyReached(y, to) && Forced(y, to.Keys, r)
    ensures OnlyReached(y, to[r := t])
  {
    forall x: set<int> | Closed(y, x)
      ensures to[r := t].Keys <= x
    {
      assert to.Keys <= x;
    }
  }

  /** checkAndFindNew_new: an object not yet copied is copied and forwarded. */
  lemma PlaceCopying(y: Before, c: Copy, open: set<int>, r: int, up: bool)
    requires InCopying(y, c, open) && r in y.young && r !in c.to && r !in open && Forced(y, c.to.Keys, r) && Room(y, c, r, up)
    ensures 0 <= r < |c.m| && 0 <= Place(y, c, r, up) < |c.m| && c.m[r] == y.m[r] && y.m[r].Head? && y.m[r].size == y.young[r]
    ensures InCopying(y, Placed(y, c, r, up), open)
  {
    hide Healthy, Shape, Targets, FromKept, WordsDone, Heads, OldKept, Scanned, OldScanned, Noted, RemSound, Amounts, OnlyReached, Forced, Room,
         Bounds, Layout;
    HealthyParts(y);
    BoundsOf(y, c);
    PlaceFree(y, c, r, up);
    ShapeSizes(y, c, r);
    PlaceShape(y, c, r, up);
    PlaceTargets(y, c, r, up);
    PlaceWords(y, c, r, up);
    PlaceKept(y, c, r, up);
    PlaceHeads(y, c, r, up);
    PlaceRem(y, c, r, up);
    PlaceScanned(y, c, open, r, up);
    RoomFor(y, c, r);
    PlaceAmounts(y, c, r, up);
    PlaceReached(y, c.to, r, Place(y, c, r, up));
  }

  lemma HealthyParts(y: Before)
    requires Healthy(y)
    ensures Layout(y) && ObjectsGood(y) && RememberedAll(y) && RootsGood(y)
  {
  }

  lemma ShapeSizes(y: Before, c: Copy, r: int)
    requires Layout(y) && Shape(y, c) && FromKept(y, c) && r in y.young && r !in c.to
    ensures |c.m| == |y.m| && 0 <= r < |c.m| && c.m[r] == y.m[r] && y.m[r].Head? && y.m[r].size == y.young[r]
  {
  }

  lemma PlaceAmounts(y: Before, c: Copy, r: int, up: bool)
    requires r in y.young && 0 <= r < |c.m| && 0 <= Place(y, c, r, up) < |c.m|
    requires Amounts(y, c.(to := c.to[r := 0],
                          thi := if IsFresh(y, r) then c.thi + y.young[r] else c.thi,
                          ng := if IsFresh(y, r) then c.ng else c.ng + y.young[r]))
    ensures Amounts(y, Placed(y, c, r, up))
  {
    assert FreshOf(y, c.to[r := 0]) == FreshOf(y, Placed(y, c, r, up).to);
    assert AgedOf(y, c.to[r := 0]) == AgedOf(y, Placed(y, c, r, up).to);
  }

  // ----- a word is moved -----

  ghost predicate IsPiece(c: Copy, t: int, n: int) {
    (t in c.oldNow && c.oldNow[t] == n) || (t in c.newNow && c.newNow[t] == n)
  }

  /** A word of the body of one object is no word of another, and no flags word. */
  lemma Separate(y: Before, c: Copy, t: int, n: int, d: int)
    requires Shape(y, c) && Bounds(y, c) && IsPiece(c, t, n) && t < d < t + n
    ensures 0 <= d < |c.m| && d !in c.oldNow && d !in c.newNow && (d < c.ng || c.tlo <= d < c.thi) && (d < y.flo || y.fhi <= d)
    ensures forall u :: u in c.oldNow && u != t ==> d < u || u + c.oldNow[u] <= d
    ensures forall u :: u in c.newNow && u != t ==> d < u || u + c.newNow[u] <= d
  {
  }

  /** The object at `t` is being scanned. */
  ghost predicate UnderWay(y: Before, c: Copy, open: set<int>, t: int) {
    && (forall a :: a in c.to && c.to[a] == t ==> a in open)
    && (t in y.olds ==> t in open && t !in c.seen)
  }

  function Finish(c: Copy, d: int, w: Word, k: int): Copy
    requires 0 <= d < |c.m|
  {
    c.(m := c.m[d := w], src := c.src[d := k])
  }

  lemma FinishWords(y: Before, c: Copy, t: int, n: int, d: int, w: Word, k: int)
    requires Shape(y, c) && Bounds(y, c) && IsPiece(c, t, n) && t < d < t + n
    requires WordsDone(y, c) && FromKept(y, c) && OldKept(y, c) && Heads(y, c) && Targets(y, c)
    requires 0 <= k < |y.m| && w == MapWord(c.to, y.m[k]) && Settled(y, c.to, RefOf(y.m[k]))
    ensures 0 <= d < |c.m|
    ensures var c' := Finish(c, d, w, k); WordsDone(y, c') && FromKept(y, c') && OldKept(y, c') && Heads(y, c')
  {
    hide Shape, Targets, Heads;
    Separate(y, c, t, n, d);
    FinishHeads(y, c, d, w, k);
    FinishKept(y, c, d, w, k);
    hide Bounds, FromKept, OldKept;
  }

  lemma FinishKept(y: Before, c: Copy, d: int, w: Word, k: int)
    requires FromKept(y, c) && OldKept(y, c) && 0 <= d < |c.m| && (d < y.flo || y.fhi <= d)
    ensures FromKept(y, Finish(c, d, w, k)) && OldKept(y, Finish(c, d, w, k))
  {
  }

  lemma FinishHeads(y: Before, c: Copy, d: int, w: Word, k: int)
    requires Heads(y, c) && Targets(y, c) && 0 <= d < |c.m| && d !in c.oldNow && d !in c.newNow && Bounds(y, c)
    ensures Heads(y, Finish(c, d, w, k))
  {
    var c' := Finish(c, d, w, k);
    forall a | a in c.to && 0 <= a < |y.m|
      ensures 0 <= c'.to[a] < |c'.m| && y.m[a].Head? && c'.m[c'.to[a]] == y.m[a].(mark := c'.to[a] in c'.rem)
    {
      assert InPlace(y, c, a);
    }
  }

  lemma FinishScanned(y: Before, c: Copy, open: set<int>, t: int, n: int, d: int, w: Word, k: int)
    requires Shape(y, c) && Bounds(y, c) && IsPiece(c, t, n) && t < d < t + n && d !in c.src && UnderWay(y, c, open, t)
    requires Targets(y, c) && Scanned(y, c, open)
    ensures 0 <= d < |c.m| && Scanned(y, Finish(c, d, w, k), open)
  {
    hide Shape;
    Separate(y, c, t, n, d);
    hide Bounds;
    var c' := Finish(c, d, w, k);
    forall a | a in c'.stack
      ensures Unfinished(c'.src, c'.to[a], y.young[a])
    {
      assert InPlace(y, c, a) && c.to[a] != t;
    }
  }

  lemma FinishOldScanned(y: Before, c: Copy, open: set<int>, t: int, n: int, d: int, w: Word, k: int)
    requires Shape(y, c) && Bounds(y, c) && IsPiece(c, t, n) && t < d < t + n && d !in c.src && UnderWay(y, c, open, t)
    requires OldScanned(y, c, open)
    ensures 0 <= d < |c.m| && OldScanned(y, Finish(c, d, w, k), open)
  {
    hide Shape;
    Separate(y, c, t, n, d);
    OldPieces(y, c);
    hide Bounds;
    var c' := Finish(c, d, w, k);
    forall o | o in y.olds && o !in c'.seen && o !in open
      ensures Unfinished(c'.src, o, y.olds[o])
    {
      assert o != t;
    }
    forall o | o in y.olds && o in c'.seen && o !in c'.rem
      ensures NoYoung(y, c'.m, o, y.olds[o])
    {
      assert o != t && NoYoung(y, c.m, o, y.olds[o]);
    }
  }

  lemma OldPieces(y: Before, c: Copy)
    requires Bounds(y, c)
    ensures forall o :: o in y.olds ==> o in c.oldNow && c.oldNow[o] == y.olds[o]
  {
  }

  lemma FinishNoted(y: Before, c: Copy, open: set<int>, t: int, n: int, d: int, w: Word, k: int)
    requires Shape(y, c) && Bounds(y, c) && IsPiece(c, t, n) && t < d < t + n && UnderWay(y, c, open, t)
    requires Targets(y, c) && Noted(y, c, open)
    ensures 0 <= d < |c.m| && Noted(y, Finish(c, d, w, k), open)
  {
    hide Shape;
    Separate(y, c, t, n, d);
    var c' := Finish(c, d, w, k);
    forall a | a in c'.to && a in y.young && !IsFresh(y, a) && a !in c'.stack && a !in open && c'.to[a] !in c'.rem
      ensures NoYoung(y, c'.m, c'.to[a], y.young[a])
    {
      assert InPlace(y, c, a) && c.to[a] != t && NoYoung(y, c.m, c.to[a], y.young[a]);
    }
  }

  lemma FinishSame(y: Before, c: Copy, d: int, w: Word, k: int)
    requires 0 <= d < |c.m|
    requires Healthy(y) && Shape(y, c) && Targets(y, c) && RemSound(y, c) && Amounts(y, c) && OnlyReached(y, c.to)
    ensures var c' := Finish(c, d, w, k);
            Shape(y, c') && Targets(y, c') && RemSound(y, c') && Amounts(y, c') && OnlyReached(y, c'.to)
  {
    hide OnlyReached;
    forall a | a in c.to
      ensures InPlace(y, Finish(c, d, w, k), a)
    {
      assert InPlace(y, c, a);
    }
  }

  /** A word of an object being scanned gets its final contents. */
  lemma FinishCopying(y: Before, c: Copy, open: set<int>, t: int, n: int, d: int, w: Word, k: int)
    requires InCopying(y, c, open) && IsPiece(c, t, n) && t < d < t + n && d !in c.src && UnderWay(y, c, open, t)
    requires 0 <= k < |y.m| && w == MapWord(c.to, y.m[k]) && Settled(y, c.to, RefOf(y.m[k]))
    ensures 0 <= d < |c.m| && InCopying(y, Finish(c, d, w, k), open)
  {
    hide Healthy, Shape, Targets, FromKept, WordsDone, Heads, OldKept, Scanned, OldScanned, Noted, RemSound, Amounts, OnlyReached,
         Bounds, Layout, UnderWay, Settled, IsPiece;
    HealthyParts(y);
    BoundsOf(y, c);
    FinishWords(y, c, t, n, d, w, k);
    FinishScanned(y, c, open, t, n, d, w, k);
    FinishOldScanned(y, c, open, t, n, d, w, k);
    FinishNoted(y, c, open, t, n, d, w, k);
    FinishSame(y, c, d, w, k);
  }

  // ----- the remembered set -----

  /** new_rem_set for a promoted object. */
  function Remember(c: Copy, t: int): Copy
    requires 0 <= t < |c.m| && c.m[t].Head?
  {
    c.(m := c.m[t := c.m[t].(mark := true)], rem := c.rem + [t])
  }

  /** Only flags words change, and only in their bit. */
  ghost predicate SameRefs(m: seq<Word>, m': seq<Word>) {
    |m'| == |m| && forall k :: 0 <= k < |m| ==> RefOf(m'[k]) == RefOf(m[k])
  }

  lemma SameNoYoung(y: Before, m: seq<Word>, m': seq<Word>, a: int, n: int)
    requires NoYoung(y, m, a, n) && SameRefs(m, m')
    ensures NoYoung(y, m', a, n)
  {
  }

  lemma RememberRest(y: Before, c: Copy, open: set<int>, t: int)
    requires Bounds(y, c) && t in c.oldNow && 0 <= t < |c.m| && c.m[t].Head?
    requires Shape(y, c) && Targets(y, c) && FromKept(y, c) && WordsDone(y, c) && OldKept(y, c) && Scanned(y, c, open) && Amounts(y, c)
    requires t >= y.ohi
    ensures var c' := Remember(c, t);
            Shape(y, c') && Targets(y, c') && FromKept(y, c') && WordsDone(y, c') && OldKept(y, c') && Scanned(y, c', open) && Amounts(y, c')
  {
    hide Shape;
    ShapeSame(y, c, Remember(c, t));
    forall a | a in c.to
      ensures InPlace(y, Remember(c, t), a)
    {
      assert InPlace(y, c, a);
    }
  }

  lemma ShapeSame(y: Before, c: Copy, c': Copy)
    requires Shape(y, c) && |c'.m| == |c.m|
    requires c'.oldNow == c.oldNow && c'.newNow == c.newNow && c'.ng == c.ng && c'.tlo == c.tlo && c'.thi == c.thi
    ensures Shape(y, c')
  {
  }

  lemma RememberNoted(y: Before, c: Copy, open: set<int>, t: int)
    requires Bounds(y, c) && t in c.oldNow && 0 <= t < |c.m| && c.m[t].Head? && t !in c.rem && t >= y.ohi
    requires Targets(y, c) && Heads(y, c) && OldScanned(y, c, open) && Noted(y, c, open) && RemSound(y, c)
    ensures var c' := Remember(c, t); Heads(y, c') && OldScanned(y, c', open) && Noted(y, c', open) && RemSound(y, c')
  {
    var c' := Remember(c, t);
    assert SameRefs(c.m, c'.m);
    forall a, n | NoYoung(y, c.m, a, n)
      ensures NoYoung(y, c'.m, a, n)
    {
      SameNoYoung(y, c.m, c'.m, a, n);
    }
    assert forall a :: a in c'.rem <==> a in c.rem || a == t;
  }

  lemma RememberCopying(y: Before, c: Copy, open: set<int>, t: int)
    requires InCopying(y, c, open) && t in c.oldNow && t >= y.ohi && t !in c.rem
    ensures 0 <= t < |c.m| && c.m[t].Head? && InCopying(y, Remember(c, t), open)
  {
    hide Healthy, Shape, Targets, FromKept, WordsDone, Heads, OldKept, Scanned, OldScanned, Noted, RemSound, Amounts, OnlyReached,
         Bounds, Layout;
    HealthyParts(y);
    BoundsOf(y, c);
    TargetHead(y, c, t);
    RememberRest(y, c, open, t);
    RememberNoted(y, c, open, t);
  }

  lemma TargetHead(y: Before, c: Copy, t: int)
    requires Bounds(y, c) && Targets(y, c) && Heads(y, c) && t in c.oldNow && t >= y.ohi
    ensures 0 <= t < |c.m| && c.m[t].Head? && (c.m[t].mark <==> t in c.rem)
  {
    assert IsTarget(c.to, t);
    var a :| a in c.to && c.to[a] == t;
    assert a in y.young;
  }

  /** A remembered object without references to the young generation is struck out. */
  function Forget(c: Copy, i: int): Copy
    requires 0 <= i < |c.rem| && 0 <= c.rem[i] < |c.m| && c.m[c.rem[i]].Head?
  {
    c.(m := c.m[c.rem[i] := c.m[c.rem[i]].(mark := false)], rem := c.rem[i := NIL])
  }

  lemma ForgetRest(y: Before, c: Copy, open: set<int>, i: int)
    requires Bounds(y, c) && 0 <= i < |c.rem| && c.rem[i] in c.oldNow && 0 <= c.rem[i] < |c.m| && c.m[c.rem[i]].Head?
    requires Shape(y, c) && Targets(y, c) && FromKept(y, c) && WordsDone(y, c) && OldKept(y, c) && Scanned(y, c, open) && Amounts(y, c)
    requires c.rem[i] in y.olds
    ensures var c' := Forget(c, i);
            Shape(y, c') && Targets(y, c') && FromKept(y, c') && WordsDone(y, c') && OldKept(y, c') && Scanned(y, c', open) && Amounts(y, c')
  {
    hide Shape;
    ShapeSame(y, c, Forget(c, i));
    forall a | a in c.to
      ensures InPlace(y, Forget(c, i), a)
    {
      assert InPlace(y, c, a);
    }
  }

  lemma ForgetNoted(y: Before, c: Copy, open: set<int>, i: int)
    requires Bounds(y, c) && 0 <= i < |c.rem| && c.rem[i] in c.oldNow && 0 <= c.rem[i] < |c.m| && c.m[c.rem[i]].Head?
    requires c.rem[i] != NIL && c.rem[i] in y.olds && c.rem[i] in c.seen && NoYoung(y, c.m, c.rem[i], y.olds[c.rem[i]])
    requires Targets(y, c) && Heads(y, c) && OldScanned(y, c, open) && Noted(y, c, open) && RemSound(y, c)
    ensures var c' := Forget(c, i); Heads(y, c') && OldScanned(y, c', open) && Noted(y, c', open) && RemSound(y, c')
  {
    var c', o := Forget(c, i), c.rem[i];
    StruckOut(c.rem, i);
    forall a | a in c.to
      ensures c.to[a] != o && c.to[a] != NIL
    {
      assert InPlace(y, c, a);
    }
    ForgetScans(y, c, open, i);
    ForgetHeads(y, c, i);
  }

  lemma ForgetScans(y: Before, c: Copy, open: set<int>, i: int)
    requires 0 <= i < |c.rem| && 0 <= c.rem[i] < |c.m| && c.m[c.rem[i]].Head? && c.rem[i] in y.olds && c.rem[i] in c.seen
    requires NoYoung(y, c.m, c.rem[i], y.olds[c.rem[i]]) && OldScanned(y, c, open) && Noted(y, c, open)
    requires forall a :: a != NIL ==> (a in c.rem[i := NIL] <==> a in c.rem && a != c.rem[i])
    requires forall a :: a in c.to ==> c.to[a] != c.rem[i] && c.to[a] != NIL
    requires forall o :: o in y.olds ==> o != NIL
    ensures OldScanned(y, Forget(c, i), open) && Noted(y, Forget(c, i), open)
  {
    var c', o := Forget(c, i), c.rem[i];
    assert SameRefs(c.m, c'.m);
    forall a, n | NoYoung(y, c.m, a, n)
      ensures NoYoung(y, c'.m, a, n)
    {
      SameNoYoung(y, c.m, c'.m, a, n);
    }
    hide NoYoung;
  }

  lemma ForgetHeads(y: Before, c: Copy, i: int)
    requires Bounds(y, c) && 0 <= i < |c.rem| && 0 <= c.rem[i] < |c.m| && c.m[c.rem[i]].Head? && c.rem[i] in y.olds
    requires Heads(y, c) && RemSound(y, c)
    requires forall a :: a != NIL ==> (a in c.rem[i := NIL] <==> a in c.rem && a != c.rem[i])
    requires forall a :: a in c.to ==> c.to[a] != c.rem[i] && c.to[a] != NIL
    ensures Heads(y, Forget(c, i)) && RemSound(y, Forget(c, i))
  {
  }

  lemma StruckOut(rem: seq<int>, i: int)
    requires 0 <= i < |rem| && rem[i] != NIL && forall i, j :: 0 <= i < j < |rem| && rem[i] != NIL ==> rem[i] != rem[j]
    ensures forall a :: a != NIL ==> (a in rem[i := NIL] <==> a in rem && a != rem[i])
  {
    forall a | a in rem && a != rem[i]
      ensures a in rem[i := NIL]
    {
      var j :| 0 <= j < |rem| && rem[j] == a;
      assert rem[i := NIL][j] == a;
    }
  }

  lemma ForgetCopying(y: Before, c: Copy, open: set<int>, i: int)
    requires InCopying(y, c, open) && 0 <= i < |c.rem| && c.rem[i] != NIL && c.rem[i] in y.olds && c.rem[i] in c.seen
    requires NoYoung(y, y.m, c.rem[i], y.olds[c.rem[i]])
    ensures 0 <= c.rem[i] < |c.m| && c.m[c.rem[i]].Head? && InCopying(y, Forget(c, i), open)
  {
    hide Healthy, Shape, Targets, FromKept, WordsDone, Heads, OldKept, Scanned, Noted, RemSound, Amounts, OnlyReached,
         Bounds, Layout, NoYoung, OldScanned;
    HealthyParts(y);
    BoundsOf(y, c);
    SeenNoYoung(y, c, open, c.rem[i]);
    ForgetRest(y, c, open, i);
    ForgetNoted(y, c, open, i);
  }

  /** A remembered object that has been gone through and had no references to
      the young generation still has none. */
  lemma SeenNoYoung(y: Before, c: Copy, open: set<int>, o: int)
    requires Bounds(y, c) && WordsDone(y, c) && Heads(y, c) && Targets(y, c) && OldScanned(y, c, open) && o in y.olds && o in c.seen
    requires NoYoung(y, y.m, o, y.olds[o])
    ensures 0 <= o < |c.m| && o in c.oldNow && c.m[o].Head? && NoYoung(y, c.m, o, y.olds[o])
  {
    NoneMoved(y, c);
    hide Bounds, Targets;
    assert Finished(c.src, o, o, y.olds[o]);
    forall k | o <= k < o + y.olds[o] && 0 <= k < |c.m|
      ensures !InNew(y, RefOf(c.m[k]))
    {
      if k > o {
        assert k in c.src && c.src[k] == k && c.m[k] == MapWord(c.to, y.m[k]);
        assert RefOf(y.m[k]) !in c.to;
      }
    }
  }

  lemma NoneMoved(y: Before, c: Copy)
    requires Bounds(y, c) && Targets(y, c)
    ensures forall a :: a in c.to ==> InNew(y, a)
    ensures |c.m| == |y.m| && forall o :: o in y.olds ==> 0 <= o < |y.m| && o in c.oldNow
  {
  }

  // ----- scanning begins and ends -----

  lemma PopCopying(y: Before, c: Copy)
    requires InCopying(y, c, {}) && c.stack != []
    ensures var a, rest := c.stack[|c.stack| - 1], c.stack[..|c.stack| - 1];
            && a in c.to && a in y.young && Unfinished(c.src, c.to[a], y.young[a])
            && InCopying(y, c.(stack := rest), {a})
  {
    hide Healthy, Shape, Targets, FromKept, WordsDone, Heads, OldKept, OldScanned, RemSound, Amounts, OnlyReached, NoYoung;
    var a, rest := c.stack[|c.stack| - 1], c.stack[..|c.stack| - 1];
    assert c.stack == rest + [a];
    assert a !in rest;
    PopRest(y, c, rest, {a});
  }

  lemma PopRest(y: Before, c: Copy, rest: seq<int>, open: set<int>)
    requires Shape(y, c) && Targets(y, c) && FromKept(y, c) && WordsDone(y, c) && Heads(y, c) && OldKept(y, c)
    requires OldScanned(y, c, {}) && RemSound(y, c) && Amounts(y, c)
    ensures var c' := c.(stack := rest);
            && Shape(y, c') && Targets(y, c') && FromKept(y, c') && WordsDone(y, c') && Heads(y, c') && OldKept(y, c')
            && OldScanned(y, c', open) && RemSound(y, c') && Amounts(y, c')
  {
    hide Shape;
    ShapeSame(y, c, c.(stack := rest));
    forall a | a in c.to
      ensures InPlace(y, c.(stack := rest), a)
    {
      assert InPlace(y, c, a);
    }
  }

  lemma CloseCopying(y: Before, c: Copy, a: int)
    requires InCopying(y, c, {a}) && a in c.to && a in y.young && Finished(c.src, a, c.to[a], y.young[a])
    requires IsFresh(y, a) || c.to[a] in c.rem || NoYoung(y, c.m, c.to[a], y.young[a])
    ensures InCopying(y, c, {})
  {
    hide Healthy, Shape, Targets, FromKept, WordsDone, Heads, OldKept, RemSound, Amounts, OnlyReached, NoYoung, Finished, Unfinished;
    assert a !in y.olds by {
      HealthyParts(y);
      BoundsOf(y, c);
    }
  }

  lemma OpenOld(y: Before, c: Copy, o: int)
    requires InCopying(y, c, {}) && o in y.olds && o !in c.seen
    ensures InCopying(y, c, {o}) && Unfinished(c.src, o, y.olds[o]) && o !in y.young
  {
    hide Healthy, Shape, Targets, FromKept, WordsDone, Heads, OldKept, RemSound, Amounts, OnlyReached, NoYoung, Finished, Unfinished;
    assert o !in y.young by {
      HealthyParts(y);
      BoundsOf(y, c);
    }
  }

  lemma CloseOld(y: Before, c: Copy, o: int)
    requires InCopying(y, c, {o}) && o in y.olds && o in c.rem && Finished(c.src, o, o, y.olds[o])
    ensures InCopying(y, c.(seen := c.seen + {o}), {})
  {
    hide Healthy, Shape, FromKept, WordsDone, Heads, OldKept, RemSound, Amounts, OnlyReached, NoYoung, Finished, Unfinished;
    var c' := c.(seen := c.seen + {o});
    assert o !in y.young by {
      HealthyParts(y);
      BoundsOf(y, c);
    }
    SeenRest(y, c, c');
    forall a | a in c.to
      ensures InPlace(y, c', a)
    {
      assert InPlace(y, c, a);
    }
  }

  lemma SeenRest(y: Before, c: Copy, c': Copy)
    requires Shape(y, c) && FromKept(y, c) && WordsDone(y, c) && Heads(y, c) && OldKept(y, c) && RemSound(y, c) && Amounts(y, c)
    requires c' == c.(seen := c'.seen)
    ensures Shape(y, c') && FromKept(y, c') && WordsDone(y, c') && Heads(y, c') && OldKept(y, c') && RemSound(y, c') && Amounts(y, c')
  {
  }

  // ----- what scanning sees -----

  /** Room enough for everything that may still be copied. */
  ghost predicate Fits(y: Before, c: Copy, up: bool) {
    && y.ohi + SurvivorWords(y) <= y.olimit
    && (if up then c.tlo == y.nlo && c.tlo + FreshWords(y) <= y.flo
        else c.thi == y.nhi && y.fhi <= c.thi - FreshWords(y))
  }

  lemma FitsRoom(y: Before, c: Copy, open: set<int>, r: int, up: bool)
    requires InCopying(y, c, open) && Fits(y, c, up) && r in y.young && r !in c.to
    ensures Room(y, c, r, up) && 0 <= r < |c.m| && 0 <= Place(y, c, r, up) < |c.m|
    ensures Fits(y, Placed(y, c, r, up), up) && y.young[r] >= 1
    ensures c.m[r] == y.m[r] && y.m[r].Head? && y.m[r].size == y.young[r]
    ensures up ==> c.thi + FreshWords(y) - (c.thi - c.tlo) <= y.flo
  {
    HealthyParts(y);
    BoundsOf(y, c);
    RoomFor(y, c, r);
    AmountsFit(y, c);
    assert y.flo <= r < r + y.young[r] <= y.fhi;
  }

  /** A reference into the new space is to a young object, forwarded or as it was. */
  lemma SeesRef(y: Before, c: Copy, open: set<int>, r: int)
    requires InCopying(y, c, open) && GoodRef(y, r)
    ensures InNew(y, r) ==> && r in y.young && y.flo <= r < y.fhi && 0 <= r < |c.m|
                            && c.m[r] == (if r in c.to then Forward(c.to[r]) else y.m[r]) && y.m[r].Head?
                            && y.m[r].size == y.young[r]
    ensures !InNew(y, r) ==> r !in c.to && (r < y.flo || y.fhi <= r)
  {
    HealthyParts(y);
    BoundsOf(y, c);
  }

  /** A young object that has been copied. */
  lemma SeesCopied(y: Before, c: Copy, open: set<int>, a: int)
    requires InCopying(y, c, open) && a in c.to
    ensures a in y.young && 0 <= a < a + y.young[a] <= |c.m| == |y.m| && y.flo <= a < y.fhi && c.m[a] == Forward(c.to[a])
    ensures IsPiece(c, c.to[a], y.young[a]) && 0 <= c.to[a] < c.to[a] + y.young[a] <= |c.m| && y.young[a] >= 1
    ensures c.m[c.to[a]].Head? && c.m[c.to[a]].size == y.young[a] && c.m[c.to[a]].ct == RefOf(y.m[a])
    ensures forall k :: a < k < a + y.young[a] ==> c.m[k] == y.m[k] && IsField(y.m[k]) && GoodRef(y, RefOf(y.m[k]))
    ensures GoodRef(y, RefOf(y.m[a])) && !InNew(y, RefOf(y.m[a]))
    ensures !IsFresh(y, a) ==> c.to[a] in c.oldNow && c.to[a] >= y.ohi
    ensures a !in y.olds && c.to[a] !in y.olds
  {
    hide WordsDone, OldKept, Scanned, OldScanned, Noted, RemSound, Amounts, OnlyReached;
    HealthyParts(y);
    BoundsOf(y, c);
    assert InPlace(y, c, a);
    CopiedWords(y, c, a);
  }

  lemma CopiedWords(y: Before, c: Copy, a: int)
    requires Layout(y) && ObjectsGood(y) && Bounds(y, c) && FromKept(y, c) && Targets(y, c) && a in c.to && a in y.young
    ensures c.m[a] == Forward(c.to[a]) && GoodWords(y, a, y.young[a])
    ensures forall k :: a < k < a + y.young[a] ==> c.m[k] == y.m[k] && IsField(y.m[k]) && GoodRef(y, RefOf(y.m[k]))
    ensures GoodRef(y, RefOf(y.m[a])) && !InNew(y, RefOf(y.m[a]))
  {
    forall k | a < k < a + y.young[a]
      ensures c.m[k] == y.m[k]
    {
      assert k !in y.young;
    }
  }

  /** While it is being scanned, only its own object answers to its new place. */
  lemma ScanUnderWay(y: Before, c: Copy, open: set<int>, a: int)
    requires InCopying(y, c, open) && a in c.to && a in open
    ensures UnderWay(y, c, open, c.to[a])
  {
    hide WordsDone, OldKept, Scanned, OldScanned, Noted, RemSound, Amounts, OnlyReached, Heads, FromKept;
    SeesCopied(y, c, open, a);
  }

  /** What a copied object refers to is to be copied. */
  lemma FieldForced(y: Before, x: set<int>, a: int, k: int)
    requires a in x && a in y.young && a <= k < a + y.young[a] && 0 <= k < |y.m|
    ensures InNew(y, RefOf(y.m[k])) ==> Forced(y, x, RefOf(y.m[k]))
  {
    if InNew(y, RefOf(y.m[k])) {
      forall c: set<int> | Closed(y, c) && x <= c
        ensures RefOf(y.m[k]) in c
      {
        assert HoldsWords(y, c, a, y.young[a]);
      }
    }
  }

  lemma OldForced(y: Before, x: set<int>, o: int, k: int)
    requires o in y.rem && o in y.olds && o <= k < o + y.olds[o] && 0 <= k < |y.m|
    ensures InNew(y, RefOf(y.m[k])) ==> Forced(y, x, RefOf(y.m[k]))
  {
    if InNew(y, RefOf(y.m[k])) {
      forall c: set<int> | Closed(y, c) && x <= c
        ensures RefOf(y.m[k]) in c
      {
        assert HoldsWords(y, c, o, y.olds[o]);
      }
    }
  }

  /** A copied object without references to to-space, once finished. */
  lemma FinishedNoYoung(y: Before, c: Copy, open: set<int>, a: int, n: int)
    requires InCopying(y, c, open) && a in c.to && a in y.young && n == y.young[a] && Finished(c.src, a, c.to[a], n)
    requires forall k :: a < k < a + n ==> !InNew(y, Renamed(c.to, RefOf(y.m[k])))
    ensures NoYoung(y, c.m, c.to[a], n)
  {
    hide Healthy, Shape, Targets, FromKept, OldKept, Scanned, OldScanned, Noted, RemSound, Amounts, OnlyReached, Bounds, Layout, Heads;
    SeesCopied(y, c, open, a);
    var t := c.to[a];
    NilStays(y, c, open);
    forall k | t <= k < t + n && 0 <= k < |c.m|
      ensures !InNew(y, RefOf(c.m[k]))
    {
      if k > t {
        assert k in c.src && c.src[k] == k - t + a;
        assert c.m[k] == MapWord(c.to, y.m[k - t + a]);
      }
    }
  }

  lemma NilStays(y: Before, c: Copy, open: set<int>)
    requires InCopying(y, c, open)
    ensures NIL !in c.to && !InNew(y, NIL)
  {
    HealthyParts(y);
    BoundsOf(y, c);
  }

  /** A remembered object that has not been gone through is as it was. */
  lemma SeesOld(y: Before, c: Copy, open: set<int>, o: int)
    requires InCopying(y, c, open) && IsOld(y, o)
    ensures o in y.olds && IsPiece(c, o, y.olds[o]) && 0 <= o < o + y.olds[o] <= |c.m| == |y.m| && y.olds[o] >= 1 && o < y.ohi
    ensures c.m[o].Head? && c.m[o].size == y.olds[o] && c.m[o].ct == RefOf(y.m[o])
    ensures forall k :: o < k < o + y.olds[o] && k !in c.src ==> c.m[k] == y.m[k]
    ensures forall k :: o < k < o + y.olds[o] ==> IsField(y.m[k]) && GoodRef(y, RefOf(y.m[k]))
    ensures GoodRef(y, RefOf(y.m[o])) && !InNew(y, RefOf(y.m[o]))
  {
    hide WordsDone, Scanned, OldScanned, Noted, RemSound, Amounts, OnlyReached, Targets;
    HealthyParts(y);
    BoundsOf(y, c);
    forall k | o < k < o + y.olds[o]
      ensures k !in y.olds
    {
    }
    assert GoodWords(y, o, y.olds[o]);
  }

  lemma OldUnderWay(y: Before, c: Copy, open: set<int>, o: int)
    requires InCopying(y, c, open) && o in y.olds && o in open && o !in c.seen
    ensures UnderWay(y, c, open, o)
  {
    hide WordsDone, OldKept, Scanned, OldScanned, Noted, RemSound, Amounts, OnlyReached, Heads, FromKept;
    HealthyParts(y);
    BoundsOf(y, c);
    forall a | a in c.to
      ensures c.to[a] != o
    {
      assert InPlace(y, c, a);
    }
  }

  // ----- the object table -----

  /** The object table with every identifier naming its object where it is now. */
  function Entries(y: Before, to: map<int, int>): map<int, int> {
    map a | a in y.table :: Renamed(to, y.table[a])
  }

  /** New places are no places of objects there were before. */
  lemma TargetsNew(y: Before, c: Copy)
    requires Bounds(y, c) && Targets(y, c)
    ensures forall a, r :: a in c.to && GoodRef(y, r) ==> c.to[a] != r
    ensures forall a, b :: a in c.to && b in c.to && a != b ==> c.to[a] != c.to[b]
    ensures forall a, r :: a in c.to && r in y.young ==> c.to[a] != r
  {
    forall a | a in c.to
      ensures c.to[a] !in y.young && forall r :: GoodRef(y, r) ==> c.to[a] != r
    {
      assert InPlace(y, c, a);
    }
  }
  /** Different identifiers still name different objects. */
  lemma EntriesDistinct(y: Before, c: Copy)
    requires RootsGood(y) && Bounds(y, c) && Targets(y, c)
    ensures Distinct(Entries(y, c.to))
  {
    TargetsNew(y, c);
    hide Bounds, GoodRef, Targets;
    forall a, b | a in y.table && b in y.table && a != b
      ensures Renamed(c.to, y.table[a]) != Renamed(c.to, y.table[b])
    {
      assert GoodRef(y, y.table[a]) && GoodRef(y, y.table[b]);
    }
  }
}
