/** The compacting collector of the old generation (vm/gc.c). */
module Compactor {
  import opened Heap
  import IntTable
  import opened SizeTable
  import opened CompactionPlan
  import opened CompactionMove
  import opened Marking
  import opened CompactionEnd
  import opened OldCollection
  import ObjectTable

  class OldSpace {
    const mem: array<Word>
    const oldStart: int
    const oldEnd: int
    var nextGen: int
    var boundary: int
    var liveObjectsLeft: int
    var wordsNeeded: int
    var wordsWasted: int
    var liveSizes: IIXSc
    var freeLists: IIXSc

    var moveStack: seq<int>
    var remSet: seq<int>
    var names: map<int, int>       // the object table while objects move
    const hash: int -> nat

    ghost var world: World         // the heap before the collection
    ghost var plan: Plan
    ghost var hist: multiset<int>  // what liveSizes counts
    ghost var freeWords: int       // words in chunks
    ghost var snap: seq<Word>      // memory as the marking left it
    ghost var to: map<int, int>    // the new places given so far
    ghost var named: map<int, int> // the object table before the move
    ghost var done: set<int>       // the objects whose fields have been moved

    constructor (mem: array<Word>, oldStart: int, oldEnd: int, nextGen: int, hash: int -> nat)
      ensures this.mem == mem && this.oldStart == oldStart && this.oldEnd == oldEnd && this.nextGen == nextGen && remSet == []
    {
      hide IIXSc.Valid;
      this.mem, this.oldStart, this.oldEnd, this.nextGen, this.hash := mem, oldStart, oldEnd, nextGen, hash;
      remSet := [];
      boundary, liveObjectsLeft, wordsNeeded, wordsWasted := 0, 0, 0, 0;
      liveSizes := new IIXSc(hash);
      freeLists := new IIXSc(hash);
      moveStack, world := [], World([], map[], 1, 1, 1, 1, 1, []);
      plan := Plan({}, map[], map[], map[]);
      hist, freeWords, snap, to, done := multiset{}, 0, [], map[], {};
      names, named := map[], map[];
    }

    /** The two size tables are sound and share nothing. */
    ghost predicate Tables()
      reads this, liveSizes, freeLists, liveSizes.Repr, freeLists.Repr
    {
      && liveSizes.Valid() && freeLists.Valid() && !freeLists.compacted
      && liveSizes.Repr !! freeLists.Repr
      && this !in liveSizes.Repr && this !in freeLists.Repr
      && mem as object !in liveSizes.Repr && mem as object !in freeLists.Repr
    }

    /** The histogram, its total, and the sizes it can hold. */
    ghost predicate Counted()
      reads this, liveSizes
    {
      && mem.Length < TERMINATOR
      && Tallies(liveSizes.counts, hist, mem.Length)
      && liveObjectsLeft == |hist|
    }

    /** The swept space up to `o`, with `holes` not yet reserved. */
    ghost predicate Swept(o: int, holes: set<int>)
      reads this, mem, freeLists
    {
      SweptAt(mem[..], snap, plan, freeLists.counts, oldStart, o, holes)
    }

    // ----- marking -----

    /** Marking is under way; the objects in `open` are being scanned. */
    ghost predicate InMarking(open: set<int>)
      reads this, mem, liveSizes, freeLists, liveSizes.Repr, freeLists.Repr
    {
      && Tables() && !liveSizes.compacted && Counted()
      && plan == Unswept(world, plan.live)
      && world.lo == oldStart >= 1 && world.hi == nextGen && world.limit == oldEnd
      && MarkingState(world, mem[..], plan.live, moveStack, open, hist, wordsNeeded)
    }

    /** What a step of marking may change, and how. */
    twostate predicate MarkedMore()
      reads this, liveSizes
    {
      && old(plan.live) <= plan.live && world == old(world)
      && (plan.live == old(plan.live) ==> moveStack == old(moveStack))
      && liveSizes == old(liveSizes) && freeLists == old(freeLists)
      && fresh(liveSizes.Repr - old(liveSizes.Repr))
    }

    /** mark: marks an unmarked object of the old generation, counts it, and
        puts it on the stack. */
    method Mark(p: int, ghost open: set<int>)
      requires InMarking(open)
      requires GoodRef(world, p) && (InOld(world, p) ==> Forced(world, plan.live, p))
      modifies this`plan, this`hist, this`wordsNeeded, this`liveObjectsLeft, this`moveStack, mem, liveSizes.Repr
      ensures InMarking(open) && MarkedMore()
      ensures InOld(world, p) ==> p in plan.live
    {
      hide IIXSc.Valid, MarkingState, Tallies, Forced, IsObject;
      ghost var m := mem[..];
      if p == NIL || p < oldStart || oldEnd <= p {
        return;
      }
      ObjectAt(world, p);
      MarkSees(world, m, plan.live, moveStack, open, hist, wordsNeeded, p);
      if !mem[p].mark {
        MarkOne(world, m, plan.live, moveStack, open, hist, wordsNeeded, p);
        CountUp(mem[p].size);
        mem[p] := mem[p].(mark := true);
        assert mem[..] == m[p := m[p].(mark := true)];
        wordsNeeded := wordsNeeded + mem[p].size;
        moveStack := moveStack + [p];
        plan := plan.(live := plan.live + {p});
      }
    }

    /** One more object of size `n` is counted. */
    method CountUp(n: int)
      requires Tables() && !liveSizes.compacted && Counted() && 1 <= n <= mem.Length
      modifies this`hist, this`liveObjectsLeft, liveSizes.Repr
      ensures Tables() && !liveSizes.compacted && Counted() && hist == old(hist) + multiset{n}
      ensures fresh(liveSizes.Repr - old(liveSizes.Repr))
    {
      hide IIXSc.Valid, Tallies;
      TalliesGive(liveSizes.counts, hist, mem.Length, n);
      var _ := liveSizes.Bump(n);
      liveObjectsLeft := liveObjectsLeft + 1;
      hist := hist + multiset{n};
    }

    static lemma ObjectAt(w: World, p: int)
      requires IsObject(w, p)
      ensures p in w.len
    {
    }

    /** mark_fields: marks everything an object on its way off the stack refers to. */
    method MarkFields(p: int)
      requires InMarking({p}) && p in plan.live && IsObject(world, p)
      modifies this`plan, this`hist, this`wordsNeeded, this`liveObjectsLeft, this`moveStack, mem, liveSizes.Repr
      ensures InMarking({}) && MarkedMore()
    {
      hide IIXSc.Valid, MarkingState, Tallies, Forced, IsObject, HasFields;
      ObjectAt(world, p);
      MarkSees(world, mem[..], plan.live, moveStack, {p}, hist, wordsNeeded, p);
      var size, i := mem[p].size, 0;
      FieldsNone(world, plan.live, p);
      while i < size
        invariant 0 <= i <= size == world.len[p] && InMarking({p}) && MarkedMore()
        invariant HasFields(world, plan.live, p, i)
      {
        MarkWord(p, i);
        i := i + 1;
      }
      MarkClose(world, mem[..], plan.live, moveStack, p, hist, wordsNeeded);
    }

    /** What the `i`th word of an object refers to is marked. */
    method MarkWord(p: int, i: int)
      requires InMarking({p}) && p in plan.live && IsObject(world, p)
      requires p in world.len && 0 <= i < world.len[p] && HasFields(world, plan.live, p, i)
      modifies this`plan, this`hist, this`wordsNeeded, this`liveObjectsLeft, this`moveStack, mem, liveSizes.Repr
      ensures InMarking({p}) && MarkedMore() && HasFields(world, plan.live, p, i + 1)
    {
      hide IIXSc.Valid, MarkingState, Tallies, Forced, IsObject, HasFields, GoodRef;
      MarkSees(world, mem[..], plan.live, moveStack, {p}, hist, wordsNeeded, p);
      assert RefOf(mem[p + i]) == RefOf(world.m[p + i]);
      ghost var live := plan.live;
      if InOld(world, RefOf(world.m[p + i])) {
        FieldForced(world, plan.live, p, p + i);
      }
      assert GoodRef(world, RefOf(world.m[p + i]));
      Mark(RefOf(mem[p + i]), {p});
      FieldsNext(world, live, plan.live, p, i);
    }

    /** flushMarkStack: scans the objects on the stack until none is left. */
    method FlushMarkStack()
      requires InMarking({})
      modifies this`plan, this`hist, this`wordsNeeded, this`liveObjectsLeft, this`moveStack, mem, liveSizes.Repr
      ensures InMarking({}) && moveStack == []
      ensures old(plan.live) <= plan.live && world == old(world)
      ensures liveSizes == old(liveSizes) && freeLists == old(freeLists) && fresh(liveSizes.Repr - old(liveSizes.Repr))
    {
      hide IIXSc.Valid, MarkingState, Tallies, Forced, IsObject, HasFields;
      while moveStack != []
        invariant InMarking({})
        invariant old(plan.live) <= plan.live && world == old(world)
        invariant liveSizes == old(liveSizes) && freeLists == old(freeLists) && fresh(liveSizes.Repr - old(liveSizes.Repr))
        decreases world.len.Keys - plan.live, |moveStack|
      {
        MarkPop(world, mem[..], plan.live, moveStack, hist, wordsNeeded);
        var p := moveStack[|moveStack| - 1];
        moveStack := moveStack[..|moveStack| - 1];
        label Scan:
        MarkFields(p);
        LiveInside(world, mem[..], plan.live, moveStack, hist, wordsNeeded);
      }
    }

    static lemma LiveInside(w: World, m: seq<Word>, live: set<int>, stack: seq<int>, hist: multiset<int>, words: int)
      requires MarkingState(w, m, live, stack, {}, hist, words)
      ensures live <= w.len.Keys
    {
      forall a | a in live
        ensures a in w.len.Keys
      {
        assert IsObject(w, a);
      }
    }

    /** Marks from one root and everything behind it. */
    method MarkRoot(r: int)
      requires InMarking({}) && GoodRef(world, r) && (InOld(world, r) ==> Forced(world, plan.live, r))
      modifies this`plan, this`hist, this`wordsNeeded, this`liveObjectsLeft, this`moveStack, mem, liveSizes.Repr
      ensures InMarking({}) && moveStack == [] && (InOld(world, r) ==> r in plan.live)
      ensures old(plan.live) <= plan.live && world == old(world)
      ensures liveSizes == old(liveSizes) && freeLists == old(freeLists) && fresh(liveSizes.Repr - old(liveSizes.Repr))
    {
      hide IIXSc.Valid, MarkingState, Tallies, Forced, IsObject, HasFields, GoodRef;
      Mark(r, {});
      FlushMarkStack();
    }

    /** Marks from all roots: the types of all old objects, every word of the
        young generation, and the external roots. */
    method MarkAll(youngStart: int, youngEnd: int, roots: array<int>)
      requires InMarking({}) && moveStack == []
      requires world.ylo == youngStart && world.yhi == youngEnd && world.roots == roots[..]
      requires roots as object !in liveSizes.Repr
      modifies this`plan, this`hist, this`wordsNeeded, this`liveObjectsLeft, this`moveStack, mem, liveSizes.Repr
      ensures InMarking({}) && moveStack == [] && HasRoots(world, plan.live)
      ensures world == old(world)
      ensures liveSizes == old(liveSizes) && freeLists == old(freeLists) && fresh(liveSizes.Repr - old(liveSizes.Repr))
    {
      hide IIXSc.Valid, MarkingState, Tallies, HasTypes, HasYoung, HasExternal, HasRoots;
      MarkTypes();
      ghost var live := plan.live;
      MarkYoung(youngStart, youngEnd);
      TypesGrow(world, live, plan.live, nextGen);
      live := plan.live;
      MarkExternal(roots);
      TypesGrow(world, live, plan.live, nextGen);
      YoungGrow(world, live, plan.live, youngEnd);
      AllRoots(world, mem[..], plan.live, hist, wordsNeeded);
    }

    /** doToOldGeneration(markCT): the types of all old objects, dead or alive. */
    method MarkTypes()
      requires InMarking({}) && moveStack == []
      modifies this`plan, this`hist, this`wordsNeeded, this`liveObjectsLeft, this`moveStack, mem, liveSizes.Repr
      ensures InMarking({}) && moveStack == [] && HasTypes(world, plan.live, nextGen)
      ensures world == old(world)
      ensures liveSizes == old(liveSizes) && freeLists == old(freeLists) && fresh(liveSizes.Repr - old(liveSizes.Repr))
    {
      hide IIXSc.Valid, MarkingState, Tallies, HasTypes, Forced, IsObject, GoodRef;
      var o := oldStart;
      TypesNone(world, mem[..], plan.live, hist, wordsNeeded);
      while o < nextGen
        invariant InMarking({}) && moveStack == [] && HasTypes(world, plan.live, o) && world == old(world)
        invariant o <= nextGen && (o == nextGen || o in world.len)
        invariant liveSizes == old(liveSizes) && freeLists == old(freeLists) && fresh(liveSizes.Repr - old(liveSizes.Repr))
        decreases nextGen - o
      {
        ghost var live := plan.live;
        MarkSees(world, mem[..], live, [], {}, hist, wordsNeeded, o);
        var size, ct := mem[o].size, mem[o].ct;
        TypeForcedAt(world, live, o);
        MarkRoot(ct);
        TypesNext(world, mem[..], live, plan.live, hist, wordsNeeded, o);
        o := o + size;
      }
    }

    /** doToNewGeneration(mark_fields): everything the young objects refer to,
        word by word. */
    method MarkYoung(youngStart: int, youngEnd: int)
      requires InMarking({}) && moveStack == [] && world.ylo == youngStart && world.yhi == youngEnd
      modifies this`plan, this`hist, this`wordsNeeded, this`liveObjectsLeft, this`moveStack, mem, liveSizes.Repr
      ensures InMarking({}) && moveStack == [] && HasYoung(world, plan.live, youngEnd)
      ensures world == old(world) && old(plan.live) <= plan.live
      ensures liveSizes == old(liveSizes) && freeLists == old(freeLists) && fresh(liveSizes.Repr - old(liveSizes.Repr))
    {
      hide IIXSc.Valid, MarkingState, Tallies, HasYoung, Forced, IsObject, GoodRef;
      var k := youngStart;
      YoungNone(world, mem[..], plan.live, hist, wordsNeeded);
      while k < youngEnd
        invariant InMarking({}) && moveStack == [] && HasYoung(world, plan.live, k) && world == old(world)
        invariant youngStart <= k <= youngEnd && old(plan.live) <= plan.live
        invariant liveSizes == old(liveSizes) && freeLists == old(freeLists) && fresh(liveSizes.Repr - old(liveSizes.Repr))
      {
        ghost var live := plan.live;
        YoungAt(world, mem[..], live, hist, wordsNeeded, k);
        MarkRoot(RefOf(mem[k]));
        YoungNext(world, live, plan.live, k);
        k := k + 1;
      }
    }

    /** doToExternalRoots. */
    method MarkExternal(roots: array<int>)
      requires InMarking({}) && moveStack == [] && world.roots == roots[..] && roots as object !in liveSizes.Repr
      modifies this`plan, this`hist, this`wordsNeeded, this`liveObjectsLeft, this`moveStack, mem, liveSizes.Repr
      ensures InMarking({}) && moveStack == [] && HasExternal(world, plan.live, roots.Length)
      ensures world == old(world) && old(plan.live) <= plan.live
      ensures liveSizes == old(liveSizes) && freeLists == old(freeLists) && fresh(liveSizes.Repr - old(liveSizes.Repr))
    {
      hide IIXSc.Valid, MarkingState, Tallies, HasExternal, Forced, IsObject, GoodRef;
      var i := 0;
      ghost var rs := roots[..];
      ExternalNone(world, plan.live);
      while i < roots.Length
        invariant InMarking({}) && moveStack == [] && HasExternal(world, plan.live, i) && world == old(world)
        invariant 0 <= i <= roots.Length && old(plan.live) <= plan.live && roots[..] == rs
        invariant liveSizes == old(liveSizes) && freeLists == old(freeLists) && fresh(liveSizes.Repr - old(liveSizes.Repr))
        invariant roots as object !in liveSizes.Repr
      {
        ghost var live := plan.live;
        ExternalAt(world, mem[..], live, hist, wordsNeeded, i);
        assert roots[i] == rs[i];
        MarkRoot(roots[i]);
        ExternalNext(world, live, plan.live, i);
        i := i + 1;
      }
    }

    /** One round of fillUp: the first `n` words of a hole are reserved for a
        live object of that size. */
    method ReserveOne(c: int, n: int, ghost o: int, ghost holes: set<int>)
      requires Tables() && Swept(o, holes)
      requires c in holes && c in plan.tile && 1 <= n <= plan.tile[c]
      modifies this`plan, mem, freeLists.Repr
      ensures Tables() && freeLists == old(freeLists)
      ensures plan == Reserve(old(plan), c, n) && Swept(o, ReserveHoles(old(plan), holes, c, n))
      ensures fresh(freeLists.Repr - old(freeLists.Repr))
      ensures forall k :: 0 <= k < mem.Length && k != c ==> mem[k] == old(mem[k])
    {
      hide IIXSc.Valid, SweptAt, Reserve;
      ghost var before, p, heads := mem[..], plan, freeLists.counts;
      SweptBounds(before, snap, p, heads, oldStart, o, holes, c);
      var link := freeLists.Lookup(n);
      mem[c] := Link(link);
      assert mem[..] == before[c := Link(ListHead(heads, n))];
      freeLists.Insert(n, c);
      plan := Reserve(p, c, n);
      StepReserve(before, snap, p, heads, oldStart, o, holes, c, n);
    }

    /** One round of fillUp: picks the size of a live object that has no place
        yet and fits, and reserves the front of the hole for it.  0 if none is
        picked. */
    method SelectAndReserve(c: int, size: int, ghost o: int, ghost holes: set<int>) returns (try: int)
      requires Tables() && liveSizes.compacted && Counted() && Swept(o, holes)
      requires c in holes && c in plan.tile && plan.tile[c] == size
      modifies this`plan, this`hist, this`freeWords, this`liveObjectsLeft
      modifies mem, liveSizes.Repr, freeLists.Repr
      ensures Kept(old(plan), old(liveSizes.home)) && Counted()
      ensures liveSizes == old(liveSizes) && freeLists == old(freeLists)
      ensures fresh(liveSizes.Repr - old(liveSizes.Repr)) && fresh(freeLists.Repr - old(freeLists.Repr))
      ensures 0 <= try <= size
      ensures try == 0 ==> plan == old(plan) && hist == old(hist) && freeWords == old(freeWords) && Swept(o, holes)
                           && mem[..] == old(mem[..])
      ensures try > 0 ==> && try in old(hist) && 1 <= try <= mem.Length && hist == old(hist) - multiset{try}
                          && plan == Reserve(old(plan), c, try) && freeWords == old(freeWords) + try
                          && Swept(o, ReserveHoles(old(plan), holes, c, try))
      ensures size in old(hist) ==> try == size
      ensures size !in old(hist) && try > 0 && !(old(liveSizes.Spare()) && size < SMALLONES && forall s :: s in old(liveSizes.home) ==> s < size)
              ==> try <= if size > 10 then size / 2 + 2 else size - 2
      ensures size !in old(hist) && old(liveSizes.Spare()) && size < SMALLONES && (forall s :: s in old(liveSizes.home) ==> s < size)
              ==> forall s :: s in old(hist) ==> s <= try
      ensures size !in old(hist) ==> forall s :: s in old(hist) && s <= (if size > 10 then size / 2 + 2 else size - 2) ==> s <= try
      ensures forall k :: 0 <= k < mem.Length && k != c ==> mem[k] == old(mem[k])
    {
      hide IIXSc.Valid, SweptAt, Tallies, Reserve, ReserveHoles;
      SweptBounds(mem[..], snap, plan, freeLists.counts, oldStart, o, holes, c);
      try := TakeSize(size);
      if try > 0 {
        ReserveOne(c, try, o, holes);
        freeWords := freeWords + try;
      }
    }

    /** One object of at most `size` words is taken from the histogram. */
    method TakeSize(size: int) returns (try: int)
      requires Tables() && liveSizes.compacted && Counted() && 1 <= size <= mem.Length
      modifies this`hist, this`liveObjectsLeft, liveSizes.Repr
      ensures Tables() && Counted() && liveSizes.compacted && liveSizes.home == old(liveSizes.home)
      ensures liveSizes.Repr == old(liveSizes.Repr)
      ensures 0 <= try <= size && (size in old(hist) ==> try == size)
      ensures size !in old(hist) && try > 0 && !(old(liveSizes.Spare()) && size < SMALLONES && forall s :: s in old(liveSizes.home) ==> s < size)
              ==> try <= if size > 10 then size / 2 + 2 else size - 2
      ensures size !in old(hist) && old(liveSizes.Spare()) && size < SMALLONES && (forall s :: s in old(liveSizes.home) ==> s < size)
              ==> forall s :: s in old(hist) ==> s <= try
      ensures size !in old(hist) ==> forall s :: s in old(hist) && s <= (if size > 10 then size / 2 + 2 else size - 2) ==> s <= try
      ensures try == 0 ==> hist == old(hist)
      ensures try > 0 ==> try in old(hist) && hist == old(hist) - multiset{try}
    {
      hide IIXSc.Valid, Tallies;
      TalliesAt(liveSizes.counts, hist, mem.Length, size);
      TalliesAll(liveSizes.counts, hist, mem.Length);
      ghost var counts := liveSizes.counts;
      try := liveSizes.SelectSmaller(size);
      if try > 0 {
        TalliesTake(counts, hist, mem.Length, try);
        hist := hist - multiset{try};
        liveObjectsLeft := liveObjectsLeft - 1;
      }
    }

    /** What fillUp keeps true while it works on a hole that began at `chunk`
        with `wholeSize` words, `size` words from `c` being left. */
    ghost predicate Filling(m0: seq<Word>, p0: Plan, hist0: multiset<int>, words0: int, o: int, holes: set<int>,
                            chunk: int, wholeSize: int, c: int, size: int)
      reads this, mem, freeLists
    {
      && Swept(o, if size > 0 then holes - {chunk} + {c} else holes - {chunk})
      && c + size == chunk + wholeSize && 0 <= size && chunk <= c
      && (size > 0 ==> c in plan.tile && plan.tile[c] == size && (c == chunk || c !in p0.tile))
      && Moved(p0, hist0, words0, plan, hist, freeWords, mem.Length)
      && freeWords + size == words0 + wholeSize
      && p0.tile.Keys <= plan.tile.Keys && OnlyInside(m0, p0, mem[..], plan, chunk, wholeSize)
    }

    /** One round of fillUp. */
    method FillRound(c: int, size: int, ghost m0: seq<Word>, ghost p0: Plan, ghost hist0: multiset<int>, ghost words0: int,
                     ghost o: int, ghost holes: set<int>, ghost chunk: int, ghost wholeSize: int) returns (try: int)
      requires Tables() && liveSizes.compacted && Counted() && size > 0
      requires holes <= p0.tile.Keys
      requires Filling(m0, p0, hist0, words0, o, holes, chunk, wholeSize, c, size)
      modifies this`plan, this`hist, this`freeWords, this`liveObjectsLeft
      modifies mem, liveSizes.Repr, freeLists.Repr
      ensures Kept(old(plan), old(liveSizes.home)) && Counted()
      ensures liveSizes == old(liveSizes) && freeLists == old(freeLists)
      ensures fresh(liveSizes.Repr - old(liveSizes.Repr)) && fresh(freeLists.Repr - old(freeLists.Repr))
      ensures 0 <= try <= size && Filling(m0, p0, hist0, words0, o, holes, chunk, wholeSize, c + try, size - try)
      ensures try == 0 ==> size !in hist && forall s :: s in hist ==> s > if size > 10 then size / 2 + 2 else size - 2
    {
      hide IIXSc.Valid, SweptAt, Reserve, ReserveHoles, Moved, Tallies, Tiling, OnlyInside;
      ghost var hs := holes - {chunk} + {c};
      ghost var before, p, h, w := mem[..], plan, hist, freeWords;
      SweptBounds(before, snap, p, freeLists.counts, oldStart, o, hs, c);
      TalliesSizes(liveSizes.counts, hist, mem.Length);
      try := SelectAndReserve(c, size, o, hs);
      if try > 0 {
        MovedReserve(p0, hist0, words0, p, h, w, mem.Length, c, try);
        ReservedRest(p, oldStart, o, hs, c, try);
        OnlyInsideReserve(m0, p0, before, p, mem[..], chunk, wholeSize, c, try);
        NextHoles(holes, p0.tile.Keys, chunk, c, c + try);
      }
    }

    static lemma NextHoles(holes: set<int>, keys: set<int>, chunk: int, c: int, d: int)
      requires holes <= keys && (c == chunk || c !in keys)
      ensures holes - {chunk} + {c} - {c} == holes - {chunk}
      ensures holes - {chunk} + {c} - {c} + {d} == holes - {chunk} + {d}
    {
    }

    /** fillUp: reserves a hole piecemeal for live objects that have no place
        yet, best fit first, and turns what is left over into a filler. */
    method FillUp(chunk: int, wholeSize: int, ghost o: int, ghost holes: set<int>) returns (freeChunk: int, size: int)
      requires Tables() && liveSizes.compacted && Counted() && Swept(o, holes)
      requires chunk in holes && chunk in plan.tile && wholeSize == plan.tile[chunk]
      modifies this`plan, this`hist, this`freeWords, this`wordsWasted, this`liveObjectsLeft
      modifies mem, liveSizes.Repr, freeLists.Repr
      ensures Kept(old(plan), old(liveSizes.home)) && Counted() && Swept(o, holes - {chunk})
      ensures liveSizes == old(liveSizes) && freeLists == old(freeLists)
      ensures fresh(liveSizes.Repr - old(liveSizes.Repr)) && fresh(freeLists.Repr - old(freeLists.Repr))
      ensures Moved(old(plan), old(hist), old(freeWords), plan, hist, freeWords, mem.Length)
      ensures freeWords + wordsWasted == old(freeWords + wordsWasted) + wholeSize
      ensures wordsWasted == old(wordsWasted) + size
      ensures Rest(plan, holes - {chunk}, chunk + wholeSize, freeChunk, size) && chunk <= freeChunk
      ensures OnlyInside(old(mem[..]), old(plan), mem[..], plan, chunk, wholeSize)
      ensures size > 0 ==> size !in hist && forall s :: s in hist ==> s > if size > 10 then size / 2 + 2 else size - 2
    {
      hide IIXSc.Valid, SweptAt, Moved, Tallies, Tiling, OnlyInside;
      freeChunk, size := chunk, wholeSize;
      var success := true;
      ghost var m0, p0, h0, w0 := mem[..], plan, hist, freeWords;
      MovedNot(p0, h0, w0, mem.Length);
      OnlyInsideNot(m0, p0, chunk, wholeSize);
      SweptBounds(m0, snap, p0, freeLists.counts, oldStart, o, holes, chunk);
      assert holes - {chunk} + {chunk} == holes;
      assert forall h :: h in holes ==> h in p0.tile.Keys;
      while size > 0 && success
        invariant Kept(p0, old(liveSizes.home)) && Counted()
        invariant liveSizes == old(liveSizes) && freeLists == old(freeLists)
        invariant fresh(liveSizes.Repr - old(liveSizes.Repr)) && fresh(freeLists.Repr - old(freeLists.Repr))
        invariant Filling(m0, p0, h0, w0, o, holes, chunk, wholeSize, freeChunk, size)
        invariant wordsWasted == old(wordsWasted) && snap == old(snap)
        invariant size > 0 && !success ==> size !in hist && forall s :: s in hist ==> s > if size > 10 then size / 2 + 2 else size - 2
        decreases size, success
      {
        var try := FillRound(freeChunk, size, m0, p0, h0, w0, o, holes, chunk, wholeSize);
        success := try > 0;
        freeChunk, size := freeChunk + try, size - try;
      }
      if size > 0 {
        wordsWasted := wordsWasted + size;
        RestNew(holes, p0.tile.Keys, chunk, freeChunk);
        ghost var before := mem[..];
        RecordSize(freeChunk, size, o, holes - {chunk} + {freeChunk});
        OnlyInsideWrite(m0, p0, before, plan, mem[..], chunk, wholeSize);
      }
    }

    static lemma RestNew(holes: set<int>, keys: set<int>, chunk: int, c: int)
      requires holes <= keys && (c == chunk || c !in keys)
      ensures holes - {chunk} + {c} - {c} == holes - {chunk} && c !in holes - {chunk}
    {
    }

    /** recordSize: a filler in place of a hole. */
    method RecordSize(c: int, size: int, ghost o: int, ghost holes: set<int>)
      requires Tables() && Swept(o, holes)
      requires c in holes && c in plan.tile && plan.tile[c] == size
      modifies mem
      ensures Tables() && Swept(o, holes - {c})
      ensures c !in plan.live && !IsChunk(plan, c)
      ensures forall k :: 0 <= k < mem.Length && (k < c || c + size <= k) ==> mem[k] == old(mem[k])
    {
      hide IIXSc.Valid, SweptAt;
      ghost var before := mem[..];
      SweptBounds(before, snap, plan, freeLists.counts, oldStart, o, holes, c);
      StepWaste(before, snap, plan, freeLists.counts, oldStart, o, holes, c);
      mem[c] := Head(size, false, NIL);
      if size > 1 {
        mem[c + 1] := Data(size - 2);
      }
      assert mem[..] == Filled(before, c, size);
    }

    /** The marked objects and the sizes known to the histogram do not change. */
    ghost predicate Kept(p: Plan, home: map<int, nat>)
      reads this, liveSizes, freeLists, liveSizes.Repr, freeLists.Repr
    {
      && Tables() && plan.live == p.live && plan.len == p.len
      && liveSizes.compacted && liveSizes.home == home
    }

    /** The heap as the marking left it, with the sweep at object `o`. */
    ghost predicate At0(o: int)
      reads this
    {
      && MarkedHeap(snap, plan.live, plan.len, oldStart, nextGen) && |snap| == mem.Length
      && oldStart <= o <= nextGen && (o == nextGen || o in plan.len)
    }

    /** The sweep meets a live object: its size is counted down. */
    method CountDown(size: int)
      requires Tables() && Counted() && size in hist
      requires liveSizes.compacted ==> size in liveSizes.home
      modifies this`hist, this`liveObjectsLeft, liveSizes.Repr
      ensures Tables() && Counted() && hist == old(hist) - multiset{size}
      ensures liveSizes.compacted == old(liveSizes.compacted) && liveSizes.home == old(liveSizes.home)
      ensures fresh(liveSizes.Repr - old(liveSizes.Repr))
    {
      hide IIXSc.Valid, Tallies;
      TalliesAt(liveSizes.counts, hist, mem.Length, size);
      TalliesTake(liveSizes.counts, hist, mem.Length, size);
      var left := liveSizes.BumpBy(size, -1);
      hist := hist - multiset{size};
      liveObjectsLeft := liveObjectsLeft - 1;
    }

    /** The hole just ended is recorded. */
    method RecordHole(hole: int, holeSize: int, holes: int, holeSizes: IntTable.IISc, ghost list: seq<int>, ghost o: int)
      requires Tables() && holeSizes.Valid() && holeSizes.Repr() !! liveSizes.Repr && holeSizes.Repr() !! freeLists.Repr
      requires this !in holeSizes.Repr() && mem as object !in holeSizes.Repr()
      requires Swept(o, HoleSet(list, hole)) && hole in plan.tile && plan.tile[hole] == holeSize && hole >= 1
      requires HoleList(mem[..], plan, holeSizes.contents, holes, list, hole)
      modifies mem, holeSizes.Repr()
      ensures Tables() && holeSizes.Valid() && fresh(holeSizes.Repr() - old(holeSizes.Repr()))
      ensures Swept(o, HoleSet([hole] + list, 0))
      ensures HoleList(mem[..], plan, holeSizes.contents, hole, [hole] + list, 0)
      ensures TileWords(plan.tile, [hole] + list) == holeSize + TileWords(plan.tile, list)
    {
      hide IIXSc.Valid, SweptAt, HoleList, IntTable.IISc.Shape, HoleSet;
      ghost var before := mem[..];
      HoleSetHas(list, hole);
      SweptBounds(before, snap, plan, freeLists.counts, oldStart, o, HoleSet(list, hole), hole);
      HoleListPush(before, plan, holeSizes.contents, holes, list, hole);
      StepRecord(before, snap, plan, freeLists.counts, oldStart, o, HoleSet(list, hole), hole, Link(holes));
      mem[hole] := Link(holes);
      assert mem[..] == before[hole := Link(holes)];
      var _ := holeSizes.Insert(hole, holeSize);
    }

    static lemma HoleSetHas(list: seq<int>, hole: int)
      ensures hole != 0 ==> hole in HoleSet(list, hole)
      ensures forall h :: h in list ==> h in HoleSet(list, hole)
    {
    }

    /** What the sweep keeps true at object `o`, `holes` of `holeWords` words
        in all being not yet reserved. */
    ghost predicate Sweeping(o: int, holes: set<int>, holeWords: int)
      reads this, mem, liveSizes, freeLists, liveSizes.Repr, freeLists.Repr
    {
      && Tables() && Counted() && At0(o)
      && Swept(o, holes)
      && Owed(plan, hist, freeWords, o, nextGen, mem.Length)
      && Space(o, holeWords)
    }

    /** The first sweep (step c) at object `o`: `hole` is the hole being found,
        0 if none, and `list` the holes found before, threaded from `holes`. */
    ghost predicate First(o: int, hole: int, holeSize: int, holes: int, holeSizes: IntTable.IISc, list: seq<int>)
      reads this, mem, liveSizes, freeLists, liveSizes.Repr, freeLists.Repr, holeSizes, holeSizes.Repr()
    {
      && Sweeping(o, HoleSet(list, hole), TileWords(plan.tile, list) + holeSize)
      && !liveSizes.compacted && plan.lists == map[]
      && OpenHole(hole, holeSize, o)
      && Listed(hole, holes, holeSizes, list)
      && Ended(list)
    }

    /** The holes in `list` end where a live object begins. */
    ghost predicate Ended(list: seq<int>)
      reads this`plan
    {
      forall h :: h in list ==> h in plan.tile && h + plan.tile[h] in plan.live
    }

    /** The holes in `list` are listed and their sizes known. */
    ghost predicate Listed(hole: int, holes: int, holeSizes: IntTable.IISc, list: seq<int>)
      reads this, mem, liveSizes, freeLists, liveSizes.Repr, freeLists.Repr, holeSizes, holeSizes.Repr()
    {
      && holeSizes.Valid() && holeSizes.Repr() !! liveSizes.Repr && holeSizes.Repr() !! freeLists.Repr
      && this !in holeSizes.Repr() && mem as object !in holeSizes.Repr()
      && HoleList(mem[..], plan, holeSizes.contents, holes, list, hole)
    }

    /** After the histogram has been compacted, every size still owed is in it. */
    ghost predicate Ready(o: int)
      reads this, liveSizes
    {
      liveSizes.compacted && Known(liveSizes.home, plan, o, nextGen)
    }

    /** The hole being found ends at `o`. */
    ghost predicate OpenHole(hole: int, holeSize: int, o: int)
      reads this`plan
    {
      && (hole == 0 ==> holeSize == 0)
      && (hole != 0 ==> hole >= 1 && hole in plan.tile && plan.tile[hole] == holeSize && hole + holeSize == o)
    }

    /** The swept words: live, reserved, wasted, or in holes not yet reserved. */
    ghost predicate Space(o: int, holeWords: int)
      reads this
    {
      o - oldStart == wordsNeeded - LiveWords(plan.live, plan.len, o, nextGen) + freeWords + wordsWasted + holeWords
    }

    /** One object of the first sweep. */
    method SweepObject(o: int, hole: int, holeSize: int, holes: int, holeSizes: IntTable.IISc, ghost list: seq<int>)
      returns (size: int, hole': int, holeSize': int, holes': int, ghost list': seq<int>)
      requires First(o, hole, holeSize, holes, holeSizes, list) && o < nextGen
      modifies this`plan, this`hist, this`liveObjectsLeft, mem, liveSizes.Repr, holeSizes.Repr()
      ensures size >= 1 && o in plan.len && size == plan.len[o] && First(o + size, hole', holeSize', holes', holeSizes, list')
      ensures fresh(liveSizes.Repr - old(liveSizes.Repr)) && fresh(holeSizes.Repr() - old(holeSizes.Repr()))
      ensures plan.live == old(plan.live) && plan.len == old(plan.len)
    {
      hide IIXSc.Valid, SweptAt, HoleList, IntTable.IISc.Valid, HoleSet, Owed, MarkedHeap, Tallies;
      hole', holeSize', holes', list' := hole, holeSize, holes, list;
      MarkedNext(snap, plan.live, plan.len, oldStart, nextGen, o);
      SweptWord(mem[..], snap, plan, freeLists.counts, oldStart, o, HoleSet(list, hole), o);
      size := mem[o].size;
      if mem[o].mark {
        if hole != 0 {
          EndHole(o, hole, holeSize, holes, holeSizes, list);
          hole', holeSize', holes', list' := 0, 0, hole, [hole] + list;
        }
        PassLive(o, size, holes', holeSizes, list');
      } else {
        PassDead(o, size, hole, holeSize, holes, holeSizes, list);
        hole', holeSize' := if hole == 0 then o else hole, holeSize + size;
      }
    }

    method EndHole(o: int, hole: int, holeSize: int, holes: int, holeSizes: IntTable.IISc, ghost list: seq<int>)
      requires First(o, hole, holeSize, holes, holeSizes, list) && hole != 0 && o in plan.live
      modifies mem, holeSizes.Repr()
      ensures First(o, 0, 0, hole, holeSizes, [hole] + list)
      ensures fresh(holeSizes.Repr() - old(holeSizes.Repr()))
    {
      hide IIXSc.Valid, SweptAt, HoleList, IntTable.IISc.Valid, HoleSet, Owed, MarkedHeap, Tallies;
      RecordHole(hole, holeSize, holes, holeSizes, list, o);
    }

    method PassLive(o: int, size: int, holes: int, holeSizes: IntTable.IISc, ghost list: seq<int>)
      requires First(o, 0, 0, holes, holeSizes, list) && o in plan.live && o < nextGen && size == plan.len[o]
      modifies this`plan, this`hist, this`liveObjectsLeft, liveSizes.Repr
      ensures First(o + size, 0, 0, holes, holeSizes, list)
      ensures fresh(liveSizes.Repr - old(liveSizes.Repr))
      ensures plan.live == old(plan.live) && plan.len == old(plan.len)
    {
      hide IIXSc.Valid, SweptAt, HoleList, IntTable.IISc.Valid, HoleSet, Owed, MarkedHeap, Tallies;
      ghost var p, h := plan, hist;
      MarkedNext(snap, p.live, p.len, oldStart, nextGen, o);
      WordsAt(p, o, nextGen);
      SweptNew(mem[..], snap, p, freeLists.counts, oldStart, o, HoleSet(list, 0));
      OwedHas(p, h, freeWords, o, nextGen, mem.Length);
      CountDown(size);
      plan := p.(tile := p.tile[o := size]);
      StepLive(mem[..], snap, p, freeLists.counts, oldStart, o, HoleSet(list, 0), size);
      OwedLive(p, h, freeWords, o, nextGen, mem.Length, plan);
      HoleListTile(mem[..], p, plan, holeSizes.contents, holes, list, 0, 0);
    }

    method PassDead(o: int, size: int, hole: int, holeSize: int, holes: int, holeSizes: IntTable.IISc, ghost list: seq<int>)
      requires First(o, hole, holeSize, holes, holeSizes, list)
      requires o in plan.len && o !in plan.live && o < nextGen && size == plan.len[o]
      modifies this`plan
      ensures First(o + size, if hole == 0 then o else hole, holeSize + size, holes, holeSizes, list)
      ensures plan.live == old(plan.live) && plan.len == old(plan.len)
    {
      hide IIXSc.Valid, SweptAt, HoleList, IntTable.IISc.Valid, HoleSet, Owed, MarkedHeap, Tallies;
      ghost var p := plan;
      MarkedNext(snap, p.live, p.len, oldStart, nextGen, o);
      WordsAt(p, o, nextGen);
      SweptNew(mem[..], snap, p, freeLists.counts, oldStart, o, HoleSet(list, hole));
      HoleSetHas(list, hole);
      HoleSetOpen(list, o);
      if hole == 0 {
        StepDead(mem[..], snap, p, freeLists.counts, oldStart, o, HoleSet(list, 0), size);
        plan := p.(tile := p.tile[o := size]);
      } else {
        StepHole(mem[..], snap, p, freeLists.counts, oldStart, o, HoleSet(list, hole), hole, size);
        plan := p.(tile := p.tile[hole := p.tile[hole] + size]);
      }
      OwedDead(p, hist, freeWords, o, nextGen, mem.Length, plan);
      HoleListTile(mem[..], p, plan, holeSizes.contents, holes, list, hole, if hole == 0 then o else hole);
    }

    static lemma HoleSetOpen(list: seq<int>, o: int)
      ensures o != 0 ==> HoleSet(list, o) == HoleSet(list, 0) + {o}
    {
    }

    /** Step c: sweeps up to the guess, counting live objects down and listing
        the holes between them. */
    method SweepToGuess(guess: int) returns (o: int, hole: int, holeSize: int, holes: int, holeSizes: IntTable.IISc, ghost list: seq<int>)
      requires Sweeping(oldStart, {}, 0) && !liveSizes.compacted && plan.lists == map[] && guess <= nextGen
      modifies this`plan, this`hist, this`liveObjectsLeft, mem, liveSizes.Repr
      ensures First(o, hole, holeSize, holes, holeSizes, list)
      ensures fresh(liveSizes.Repr - old(liveSizes.Repr)) && fresh(holeSizes.Repr())
      ensures plan.live == old(plan.live) && plan.len == old(plan.len)
      ensures o >= guess && (o == oldStart || exists a :: a in plan.len && a < guess && a + plan.len[a] == o)
      ensures forall h :: h in list ==> h in plan.tile && h + plan.tile[h] in plan.live
    {
      hide IIXSc.Valid, SweptAt, HoleList, IntTable.IISc.Valid, HoleSet, Owed, MarkedHeap, Tallies, Known;
      o, hole, holeSize, holes := oldStart, 0, 0, 0;
      holeSizes := NoHoles();
      list := [];
      while o < guess
        invariant First(o, hole, holeSize, holes, holeSizes, list)
        invariant fresh(liveSizes.Repr - old(liveSizes.Repr)) && fresh(holeSizes.Repr())
        invariant plan.live == old(plan.live) && plan.len == old(plan.len)
        invariant liveSizes == old(liveSizes)
        invariant o == oldStart || exists a :: a in plan.len && a < guess && a + plan.len[a] == o
        decreases nextGen - o
      {
        var size;
        size, hole, holeSize, holes, list := SweepObject(o, hole, holeSize, holes, holeSizes, list);
        o := o + size;
      }
    }

    method NoHoles() returns (holeSizes: IntTable.IISc)
      requires Sweeping(oldStart, {}, 0) && !liveSizes.compacted && plan.lists == map[]
      ensures First(oldStart, 0, 0, 0, holeSizes, []) && fresh(holeSizes.Repr())
    {
      hide IIXSc.Valid, SweptAt, HoleList, IntTable.IISc.Valid, HoleSet, Owed, MarkedHeap, Tallies, Known;
      holeSizes := new IntTable.IISc(1, liveSizes.bigOnes.hash);
      HoleListStart(mem[..], plan);
    }

    /** The histogram is compacted for selection. */
    method CompactSizes(o: int, hole: int, holeSize: int, holes: int, holeSizes: IntTable.IISc, ghost list: seq<int>)
      requires First(o, hole, holeSize, holes, holeSizes, list)
      modifies liveSizes.Repr
      ensures Sweeping(o, HoleSet(list, hole), TileWords(plan.tile, list) + holeSize) && Ready(o)
      ensures OpenHole(hole, holeSize, o) && Listed(hole, holes, holeSizes, list)
      ensures fresh(liveSizes.Repr - old(liveSizes.Repr))
    {
      hide IIXSc.Valid, SweptAt, Owed, MarkedHeap, Tallies, Known, HoleList, HoleSet, IntTable.IISc.Valid;
      TalliesKeys(liveSizes.counts, hist, mem.Length);
      ghost var apart := holeSizes.Repr();
      liveSizes.Compact();
      assert holeSizes.Repr() == apart;
      KnownStart(liveSizes.home, liveSizes.counts, plan, hist, freeWords, o, nextGen, mem.Length);
    }

    /** A hole is filled up as far as possible. */
    method FillHole(hole: int, holeSize: int, ghost o: int, ghost hs: set<int>, ghost holeWords: int)
      returns (freeChunk: int, size: int)
      requires Sweeping(o, hs, holeWords) && Ready(o)
      requires hole in hs && hole in plan.tile && plan.tile[hole] == holeSize
      modifies this`plan, this`hist, this`freeWords, this`wordsWasted, this`liveObjectsLeft
      modifies mem, liveSizes.Repr, freeLists.Repr
      ensures Sweeping(o, hs - {hole}, holeWords - holeSize) && Ready(o)
      ensures fresh(liveSizes.Repr - old(liveSizes.Repr)) && fresh(freeLists.Repr - old(freeLists.Repr))
      ensures plan.live == old(plan.live) && plan.len == old(plan.len)
      ensures wordsWasted == old(wordsWasted) + size && freeWords + wordsWasted == old(freeWords + wordsWasted) + holeSize
      ensures Rest(plan, hs - {hole}, hole + holeSize, freeChunk, size) && hole <= freeChunk
      ensures OnlyInside(old(mem[..]), old(plan), mem[..], plan, hole, holeSize)
    {
      hide IIXSc.Valid, SweptAt, Owed, MarkedHeap, Tallies, Moved, OnlyInside, Known;
      freeChunk, size := FillUp(hole, holeSize, o, hs);
      OwedMoved(old(plan), old(hist), old(freeWords), plan, hist, freeWords, o, nextGen, mem.Length);
      KnownSame(liveSizes.home, old(plan), plan, o, nextGen);
    }

    /** Step d: the holes of the first sweep are filled, the open one first. */
    method FillHoles(hole: int, holeSize: int, first: int, holeSizes: IntTable.IISc, ghost list0: seq<int>, ghost o: int)
      requires Sweeping(o, HoleSet(list0, hole), TileWords(plan.tile, list0) + holeSize) && Ready(o)
      requires OpenHole(hole, holeSize, o) && Listed(hole, first, holeSizes, list0)
      modifies this`plan, this`hist, this`freeWords, this`wordsWasted, this`liveObjectsLeft
      modifies mem, liveSizes.Repr, freeLists.Repr
      ensures Sweeping(o, {}, 0) && Ready(o)
      ensures fresh(liveSizes.Repr - old(liveSizes.Repr)) && fresh(freeLists.Repr - old(freeLists.Repr))
      ensures plan.live == old(plan.live) && plan.len == old(plan.len)
    {
      hide IIXSc.Valid, SweptAt, HoleList, IntTable.IISc.Valid, HoleSet, Owed, MarkedHeap, Tallies, Known, OnlyInside;
      ghost var list := list0;
      var holes := first;
      if hole != 0 {
        FillOpen(hole, holeSize, holes, holeSizes, list, o);
      }
      HoleListHead(mem[..], plan, holeSizes.contents, holes, list);
      while holes != 0
        invariant Sweeping(o, HoleSet(list, 0), TileWords(plan.tile, list)) && Ready(o)
        invariant Listed(0, holes, holeSizes, list)
        invariant fresh(liveSizes.Repr - old(liveSizes.Repr)) && fresh(freeLists.Repr - old(freeLists.Repr))
        invariant plan.live == old(plan.live) && plan.len == old(plan.len)
        invariant liveSizes == old(liveSizes) && freeLists == old(freeLists)
        invariant holes == 0 <==> list == []
        decreases |list|
      {
        holes := FillFirst(holes, holeSizes, list, o);
        list := list[1..];
        HoleListHead(mem[..], plan, holeSizes.contents, holes, list);
      }
      HoleSetNone();
    }

    static lemma HoleSetNone()
      ensures HoleSet([], 0) == {}
    {
    }

    method FillOpen(hole: int, holeSize: int, holes: int, holeSizes: IntTable.IISc, ghost list: seq<int>, ghost o: int)
      requires Sweeping(o, HoleSet(list, hole), TileWords(plan.tile, list) + holeSize) && Ready(o)
      requires OpenHole(hole, holeSize, o) && Listed(hole, holes, holeSizes, list) && hole != 0
      modifies this`plan, this`hist, this`freeWords, this`wordsWasted, this`liveObjectsLeft
      modifies mem, liveSizes.Repr, freeLists.Repr
      ensures Sweeping(o, HoleSet(list, 0), TileWords(plan.tile, list)) && Ready(o)
      ensures Listed(0, holes, holeSizes, list)
      ensures fresh(liveSizes.Repr - old(liveSizes.Repr)) && fresh(freeLists.Repr - old(freeLists.Repr))
      ensures plan.live == old(plan.live) && plan.len == old(plan.len)
      ensures liveSizes == old(liveSizes) && freeLists == old(freeLists)
    {
      hide IIXSc.Valid, SweptAt, HoleList, IntTable.IISc.Valid, HoleSet, Owed, MarkedHeap, Tallies, Known, OnlyInside;
      ghost var before, hs := mem[..], HoleSet(list, hole);
      HoleSetHas(list, hole);
      SweptBounds(before, snap, plan, freeLists.counts, oldStart, o, hs, hole);
      HoleListWrite(before, plan, holeSizes.contents, holes, list, hole, Link(0));
      HoleSetClosed(list, hole);
      StepRecord(before, snap, plan, freeLists.counts, oldStart, o, hs, hole, Link(0));
      mem[hole] := Link(0);
      assert mem[..] == before[hole := Link(0)];
      ghost var p, m := plan, mem[..];
      var rest, left := FillHole(hole, holeSize, o, hs, TileWords(plan.tile, list) + holeSize);
      HoleListInside(m, p, mem[..], plan, holeSizes.contents, holes, list, hole, oldStart, o);
    }

    static lemma HoleSetClosed(list: seq<int>, hole: int)
      requires hole !in list && hole != 0
      ensures HoleSet(list, hole) - {hole} == HoleSet(list, 0)
    {
    }

    method FillFirst(hole: int, holeSizes: IntTable.IISc, ghost list: seq<int>, ghost o: int) returns (next: int)
      requires Sweeping(o, HoleSet(list, 0), TileWords(plan.tile, list)) && Ready(o)
      requires Listed(0, hole, holeSizes, list) && hole != 0
      modifies this`plan, this`hist, this`freeWords, this`wordsWasted, this`liveObjectsLeft
      modifies mem, liveSizes.Repr, freeLists.Repr
      ensures list != []
      ensures Sweeping(o, HoleSet(list[1..], 0), TileWords(plan.tile, list[1..])) && Ready(o)
      ensures Listed(0, next, holeSizes, list[1..])
      ensures fresh(liveSizes.Repr - old(liveSizes.Repr)) && fresh(freeLists.Repr - old(freeLists.Repr))
      ensures plan.live == old(plan.live) && plan.len == old(plan.len)
      ensures liveSizes == old(liveSizes) && freeLists == old(freeLists)
    {
      hide IIXSc.Valid, SweptAt, HoleList, IntTable.IISc.Valid, HoleSet, Owed, MarkedHeap, Tallies, Known, OnlyInside;
      HoleListHead(mem[..], plan, holeSizes.contents, hole, list);
      next := mem[hole].next;
      var holeSize := holeSizes.Lookup(hole);
      ghost var p, m, hs := plan, mem[..], HoleSet(list, 0);
      SweptBounds(m, snap, p, freeLists.counts, oldStart, o, hs, hole);
      var rest, left := FillHole(hole, holeSize, o, hs, TileWords(p.tile, list));
      HoleListPop(m, p, mem[..], plan, holeSizes.contents, hole, list, oldStart, o);
    }

    /** The sweep is over: the boundary is found and, for every size, as many
        chunks lie below it as live objects of that size from it on. */
    ghost predicate Planned(end: int)
      reads this, mem, liveSizes, freeLists, liveSizes.Repr, freeLists.Repr
    {
      && Tables() && At0(end)
      && Complete(mem[..], snap, plan, freeLists.counts, oldStart, boundary, end, nextGen)
      && boundary - oldStart == wordsNeeded + wordsWasted
    }

    ghost function Open(hole: int): set<int> {
      if hole != 0 then {hole} else {}
    }

    /** The second sweep (step e): each hole is filled as soon as it ends, until
        every live object not yet reached has a place. */
    method SweepOn(start: int) returns (ghost end: int)
      requires Sweeping(start, {}, 0) && Ready(start)
      modifies this`plan, this`hist, this`freeWords, this`wordsWasted, this`liveObjectsLeft, this`boundary
      modifies mem, liveSizes.Repr, freeLists.Repr
      ensures Planned(end) && liveObjectsLeft == 0
      ensures old(liveObjectsLeft) == 0 ==> end == boundary == start && wordsWasted == old(wordsWasted)
      ensures fresh(liveSizes.Repr - old(liveSizes.Repr)) && fresh(freeLists.Repr - old(freeLists.Repr))
      ensures plan.live == old(plan.live) && plan.len == old(plan.len)
    {
      hide IIXSc.Valid, SweptAt, Owed, MarkedHeap, Tallies, Known, OnlyInside, Complete;
      var o, hole, holeSize := start, 0, 0;
      ghost var none, wasted := liveObjectsLeft == 0, wordsWasted;
      while liveObjectsLeft > 0
        invariant Sweeping(o, Open(hole), holeSize) && Ready(o) && OpenHole(hole, holeSize, o)
        invariant liveObjectsLeft == 0 ==> hole == 0
        invariant none ==> liveObjectsLeft == 0 && o == start && wordsWasted == wasted
        invariant fresh(liveSizes.Repr - old(liveSizes.Repr)) && fresh(freeLists.Repr - old(freeLists.Repr))
        invariant plan.live == old(plan.live) && plan.len == old(plan.len)
        invariant liveSizes == old(liveSizes) && freeLists == old(freeLists)
        decreases nextGen - o
      {
        if o == nextGen {
          OwedNone(plan, hist, freeWords, nextGen, mem.Length);
          assert false;
        }
        MarkedNext(snap, plan.live, plan.len, oldStart, nextGen, o);
        SweptWord(mem[..], snap, plan, freeLists.counts, oldStart, o, Open(hole), o);
        var size := mem[o].size;
        var stop;
        hole, holeSize, stop := SweepObjectOn(o, size, hole, holeSize);
        if stop {
          end := o;
          return;
        }
        o := o + size;
      }
      CompleteAt(mem[..], snap, plan, freeLists.counts, oldStart, o, nextGen, hist, freeWords, mem.Length);
      boundary := o;
      end := o;
    }

    /** One object of the second sweep. */
    method SweepObjectOn(o: int, size: int, hole: int, holeSize: int) returns (hole': int, holeSize': int, stop: bool)
      requires Sweeping(o, Open(hole), holeSize) && Ready(o) && OpenHole(hole, holeSize, o) && liveObjectsLeft > 0
      requires o in plan.len && o < nextGen && size == plan.len[o] && 0 <= o < mem.Length && mem[o].Head? && (mem[o].mark <==> o in plan.live)
      modifies this`plan, this`hist, this`freeWords, this`wordsWasted, this`liveObjectsLeft, this`boundary
      modifies mem, liveSizes.Repr, freeLists.Repr
      ensures stop ==> Planned(o) && liveObjectsLeft == 0
      ensures !stop ==> Sweeping(o + size, Open(hole'), holeSize') && Ready(o + size) && OpenHole(hole', holeSize', o + size)
      ensures !stop && liveObjectsLeft == 0 ==> hole' == 0
      ensures fresh(liveSizes.Repr - old(liveSizes.Repr)) && fresh(freeLists.Repr - old(freeLists.Repr))
      ensures plan.live == old(plan.live) && plan.len == old(plan.len)
      ensures liveSizes == old(liveSizes) && freeLists == old(freeLists)
    {
      hide IIXSc.Valid, SweptAt, Owed, MarkedHeap, Tallies, Known, OnlyInside, Complete;
      hole', holeSize', stop := 0, 0, false;
      if mem[o].mark {
        if hole != 0 {
          stop := FillBefore(o, hole, holeSize);
          if stop {
            return;
          }
        }
        CountOrReclaim(o, size);
      } else {
        ExtendHole(o, size, hole, holeSize);
        hole', holeSize' := if hole == 0 then o else hole, holeSize + size;
      }
    }

    /** A dead object begins a hole or joins the one before it. */
    method ExtendHole(o: int, size: int, hole: int, holeSize: int)
      requires Sweeping(o, Open(hole), holeSize) && Ready(o) && OpenHole(hole, holeSize, o) && liveObjectsLeft > 0
      requires o in plan.len && o !in plan.live && o < nextGen && size == plan.len[o]
      modifies this`plan
      ensures Sweeping(o + size, Open(if hole == 0 then o else hole), holeSize + size) && Ready(o + size)
      ensures OpenHole(if hole == 0 then o else hole, holeSize + size, o + size)
      ensures plan.live == old(plan.live) && plan.len == old(plan.len)
    {
      hide IIXSc.Valid, SweptAt, Owed, MarkedHeap, Tallies, Known, OnlyInside;
      ghost var p := plan;
      MarkedNext(snap, p.live, p.len, oldStart, nextGen, o);
      WordsAt(p, o, nextGen);
      KnownNext(liveSizes.home, p, o, nextGen);
      if hole == 0 {
        StepDead(mem[..], snap, p, freeLists.counts, oldStart, o, {}, size);
        assert {} + {o} == Open(o);
        plan := p.(tile := p.tile[o := size]);
      } else {
        StepHole(mem[..], snap, p, freeLists.counts, oldStart, o, Open(hole), hole, size);
        plan := p.(tile := p.tile[hole := p.tile[hole] + size]);
      }
      OwedDead(p, hist, freeWords, o, nextGen, mem.Length, plan);
      KnownSame(liveSizes.home, p, plan, o + size, nextGen);
    }

    /** A hole ends at live object `o` and is filled.  When that provides for
        the last live object the boundary is retracted to the hole's remainder. */
    method FillBefore(o: int, hole: int, holeSize: int) returns (stop: bool)
      requires Sweeping(o, Open(hole), holeSize) && Ready(o) && OpenHole(hole, holeSize, o) && hole != 0 && liveObjectsLeft > 0
      modifies this`plan, this`hist, this`freeWords, this`wordsWasted, this`liveObjectsLeft, this`boundary
      modifies mem, liveSizes.Repr, freeLists.Repr
      ensures !stop ==> Sweeping(o, {}, 0) && Ready(o)
      ensures stop ==> Planned(o)
      ensures stop <==> liveObjectsLeft == 0
      ensures stop ==> hole <= boundary <= o && freeWords == old(freeWords) + boundary - hole && wordsWasted == old(wordsWasted)
      ensures !stop ==> freeWords + wordsWasted == old(freeWords + wordsWasted) + holeSize
      ensures fresh(liveSizes.Repr - old(liveSizes.Repr)) && fresh(freeLists.Repr - old(freeLists.Repr))
      ensures plan.live == old(plan.live) && plan.len == old(plan.len)
      ensures liveSizes == old(liveSizes) && freeLists == old(freeLists)
    {
      hide IIXSc.Valid, SweptAt, Owed, MarkedHeap, Tallies, Known, OnlyInside, Complete, Rest;
      var rest, left := FillHole(hole, holeSize, o, Open(hole), holeSize);
      assert Open(hole) - {hole} == {};
      RestBounds(plan, {}, o, rest, left);
      stop := liveObjectsLeft == 0 && rest + left == o;
      if stop {
        CompleteAt(mem[..], snap, plan, freeLists.counts, oldStart, o, nextGen, hist, freeWords, mem.Length);
        wordsWasted := wordsWasted - left;
        boundary := rest;
        if left > 0 {
          CompleteCut(mem[..], snap, plan, freeLists.counts, oldStart, o, nextGen, rest, left);
          plan := plan.(tile := plan.tile - {rest});
        }
      }
    }

    /** A live object is passed: its size is counted down, or, if no object of
        its size is left without a place, one chunk of its size is given back
        and filled with others. */
    method CountOrReclaim(o: int, size: int)
      requires Sweeping(o, {}, 0) && Ready(o) && liveObjectsLeft > 0
      requires o < nextGen && o in plan.live && size == plan.len[o]
      modifies this`plan, this`hist, this`freeWords, this`wordsWasted, this`liveObjectsLeft
      modifies mem, liveSizes.Repr, freeLists.Repr
      ensures Sweeping(o + size, {}, 0) && Ready(o + size)
      ensures size in old(hist) ==> hist == old(hist) - multiset{size} && plan.lists == old(plan.lists)
      ensures size in old(hist) ==> freeWords == old(freeWords) && wordsWasted == old(wordsWasted)
      ensures freeWords + wordsWasted == old(freeWords + wordsWasted)
      ensures fresh(liveSizes.Repr - old(liveSizes.Repr)) && fresh(freeLists.Repr - old(freeLists.Repr))
      ensures plan.live == old(plan.live) && plan.len == old(plan.len)
      ensures liveSizes == old(liveSizes) && freeLists == old(freeLists)
    {
      hide IIXSc.Valid, SweptAt, Owed, MarkedHeap, Tallies, Known, OnlyInside, LiveWords;
      ghost var p, h, counts := plan, hist, liveSizes.counts;
      PassKnown(o, size);
      TalliesAt(counts, h, mem.Length, size);
      var left := liveSizes.BumpBy(size, -1);
      if left < 0 {
        OwedReclaim(p, h, freeWords, o, nextGen, mem.Length, plan);
        TalliesBack(counts, h, mem.Length, size);
        Reallocate(o, size, p, h);
      } else {
        TalliesTake(counts, h, mem.Length, size);
        Uncount(o, size, p, h);
      }
    }

    /** An object of its size is left no longer. */
    method Uncount(o: int, size: int, ghost p: Plan, ghost h: multiset<int>)
      requires Tables() && mem.Length < TERMINATOR && hist == h && liveObjectsLeft == |h|
      requires size in h && |h - multiset{size}| == |h| - 1 && 1 <= size <= mem.Length
      requires Tallies(liveSizes.counts, h - multiset{size}, mem.Length)
      requires At0(o + size) && Swept(o + size, {}) && Ready(o + size) && Space(o + size, 0)
      requires o in p.len && o < nextGen && p.len[o] == size && o in p.live
      requires plan.live == p.live && plan.len == p.len && plan.lists == p.lists
      requires Owed(p, h, freeWords, o, nextGen, mem.Length)
      modifies this`hist, this`liveObjectsLeft
      ensures Sweeping(o + size, {}, 0) && Ready(o + size) && hist == h - multiset{size}
    {
      hide IIXSc.Valid, SweptAt, Owed, MarkedHeap, Tallies, Known, OnlyInside, LiveWords;
      OwedLive(p, h, freeWords, o, nextGen, mem.Length, plan);
      hist := h - multiset{size};
      liveObjectsLeft := liveObjectsLeft - 1;
    }

    /** The sweep passes a live object whose size has an entry in the histogram. */
    ghost method PassKnown(o: int, size: int)
      requires Sweeping(o, {}, 0) && Ready(o) && o < nextGen && o in plan.live && size == plan.len[o]
      modifies this`plan
      ensures plan == old(plan).(tile := old(plan).tile[o := size]) && o in plan.len && 1 <= size <= mem.Length && size in liveSizes.home
      ensures Tables() && Counted() && At0(o + size) && Swept(o + size, {}) && Ready(o + size) && Space(o + size, 0)
    {
      hide IIXSc.Valid, SweptAt, Owed, MarkedHeap, Tallies, Known, OnlyInside;
      ghost var p := plan;
      MarkedNext(snap, p.live, p.len, oldStart, nextGen, o);
      WordsAt(p, o, nextGen);
      KnownNext(liveSizes.home, p, o, nextGen);
      StepLive(mem[..], snap, p, freeLists.counts, oldStart, o, {}, size);
      plan := p.(tile := p.tile[o := size]);
      KnownSame(liveSizes.home, p, plan, o + size, nextGen);
    }

    /** A chunk that is no longer owed is given back and filled with others. */
    method Reallocate(o: int, size: int, ghost p: Plan, ghost h: multiset<int>)
      requires Tables() && mem.Length < TERMINATOR && hist == h && liveObjectsLeft == |h|
      requires 1 <= size <= mem.Length && size in liveSizes.home && liveSizes.compacted
      requires Tallies(liveSizes.counts[size := At(liveSizes.counts, size) + 1], h, mem.Length)
      requires At0(o + size) && Swept(o + size, {}) && Ready(o + size) && Space(o + size, 0)
      requires o in p.len && o < nextGen && p.len[o] == size && o in p.live && h[size] == 0
      requires plan.live == p.live && plan.len == p.len && plan.lists == p.lists
      requires Owed(p, h, freeWords, o, nextGen, mem.Length)
      modifies this`plan, this`hist, this`freeWords, this`wordsWasted, this`liveObjectsLeft
      modifies mem, liveSizes.Repr, freeLists.Repr
      ensures Sweeping(o + size, {}, 0) && Ready(o + size)
      ensures freeWords + wordsWasted == old(freeWords + wordsWasted)
      ensures fresh(liveSizes.Repr - old(liveSizes.Repr)) && fresh(freeLists.Repr - old(freeLists.Repr))
      ensures plan.live == old(plan.live) && plan.len == old(plan.len)
      ensures liveSizes == old(liveSizes) && freeLists == old(freeLists)
    {
      hide IIXSc.Valid, SweptAt, Owed, MarkedHeap, Tallies, Known, OnlyInside;
      OwedReclaim(p, h, freeWords, o, nextGen, mem.Length, p);
      var freeChunk := TakeChunk(size, o + size);
      var _ := liveSizes.Bump(size);
      OwedReclaim(p, h, freeWords, o, nextGen, mem.Length, plan);
      freeWords := freeWords - size;
      KnownSame(liveSizes.home, old(plan), plan, o + size, nextGen);
      assert Sweeping(o + size, {freeChunk}, size);
      var rest, wasted := FillHole(freeChunk, size, o + size, {freeChunk}, size);
      assert {freeChunk} - {freeChunk} == {};
    }

    /** The first chunk of a free list is taken off it. */
    method TakeChunk(size: int, ghost o: int) returns (c: int)
      requires Tables() && Swept(o, {}) && size >= 1 && Chunks(plan.lists, size) != []
      modifies this`plan, freeLists.Repr
      ensures Tables() && fresh(freeLists.Repr - old(freeLists.Repr))
      ensures plan == Reclaim(old(plan), size) && c == Chunks(old(plan.lists), size)[0]
      ensures c in plan.tile && plan.tile[c] == size && Swept(o, {c})
    {
      hide IIXSc.Valid, SweptAt, Reclaim;
      StepReclaim(mem[..], snap, plan, freeLists.counts, oldStart, o, {}, size);
      c := freeLists.Lookup(size);
      freeLists.Insert(size, mem[c].next);
      plan := Reclaim(plan, size);
      assert {} + {c} == {c};
    }

    /** Finds the boundary: `wordsNeeded` words of live objects above it have
        their places, of exactly their sizes, in the dead space below it. */
    method FindBoundary() returns (ghost end: int)
      requires Sweeping(oldStart, {}, 0) && !liveSizes.compacted && plan.lists == map[] && plan.tile == map[]
      requires freeWords == 0 && wordsWasted == 0
      modifies this`plan, this`hist, this`freeWords, this`wordsWasted, this`liveObjectsLeft, this`boundary
      modifies mem, liveSizes.Repr, freeLists.Repr
      ensures Planned(end)
      ensures fresh(liveSizes.Repr - old(liveSizes.Repr)) && fresh(freeLists.Repr - old(freeLists.Repr))
      ensures plan.live == old(plan.live) && plan.len == old(plan.len)
    {
      hide IIXSc.Valid, SweptAt, Owed, MarkedHeap, Tallies, Known, HoleList, HoleSet, Complete, IntTable.IISc.Valid;
      LiveFits(snap, plan.live, plan.len, oldStart, nextGen);
      var guess := oldStart + wordsNeeded;
      var o, hole, holeSize, holes, holeSizes;
      ghost var list;
      o, hole, holeSize, holes, holeSizes, list := SweepToGuess(guess);
      CompactSizes(o, hole, holeSize, holes, holeSizes, list);
      FillHoles(hole, holeSize, holes, holeSizes, list, o);
      end := SweepOn(o);
    }

    // ----- moving -----

    /** The move, with the object `cur` under way (NIL for none). */
    ghost predicate InMove(cur: int, end: int)
      reads this, mem, liveSizes, freeLists, liveSizes.Repr, freeLists.Repr
    {
      && Tables()
      && Reachables(snap, plan, oldStart, boundary, end, nextGen, oldEnd)
      && Moving(mem[..], snap, plan, freeLists.counts, to, done, cur, oldStart, boundary, end, nextGen)
      && NamesMoved(names, named, to, plan.live, oldStart, oldEnd)
    }

    /** UpdateObjectLocation: the identifier of an object that has one. */
    method UpdateObjectLocation(o: int, new': int)
      requires ObjectTable.CanReaddress(names, o, new') && forall a, b :: a in names && b in names && a != b ==> names[a] != names[b]
      modifies this`names
      ensures names == ObjectTable.Readdressed(old(names), o, new')
    {
      ghost var before := names;
      if a :| a in names && names[a] == o {
        names := names[a := new'];
      } else {
        assert forall a :: a in names ==> names[a] != o;
      }
      assert forall a :: a in before ==> names[a] == if before[a] == o then new' else before[a];
    }

    /** The first `i` words of `cur` have been moved. */
    ghost predicate Progress(cur: int, end: int, i: int, ct: int)
      reads this, mem
    {
      Progressing(mem[..], snap, plan, to, end, cur, i, ct)
    }

    /** checkAndFindNew_old: the place an object has or is now given. */
    method CheckAndFindNew(r: int, ghost cur: int, ghost end: int, ghost i: int, ghost ct: int) returns (new': int)
      requires cur != NIL && InMove(cur, end) && Progress(cur, end, i, ct)
      requires oldStart <= r < oldEnd ==> r in plan.live
      modifies this`plan, this`to, this`names, mem, freeLists.Repr
      ensures InMove(cur, end) && Progress(cur, end, i, ct)
      ensures new' == Renamed(to, r) && Settled(plan, to, end, r)
      ensures plan.live == old(plan.live) && plan.len == old(plan.len)
      ensures to == old(to) || (r in plan.live && r >= end && r !in old(to) && to == old(to)[r := new'])
      ensures fresh(freeLists.Repr - old(freeLists.Repr)) && freeLists == old(freeLists)
    {
      hide IIXSc.Valid, Reachables, Moving, NamesMoved, CopiedUpTo, AllSettled;
      ghost var m, p := mem[..], plan;
      if oldStart <= r < oldEnd {
        WhereIs(m, snap, p, freeLists.counts, to, done, cur, oldStart, boundary, end, nextGen, oldEnd, r);
        if r < boundary {
          new' := r;
          StaysPut(m, snap, p, freeLists.counts, to, done, cur, oldStart, boundary, end, nextGen, oldEnd, r);
        } else if mem[r].Forward? {
          new' := mem[r].to;
          HeadWord(snap, p, oldStart, boundary, end, nextGen, oldEnd, r);
        } else {
          new' := GivePlace(r, cur, end, i, ct);
        }
      } else {
        new' := r;
        StaysPut(m, snap, p, freeLists.counts, to, done, cur, oldStart, boundary, end, nextGen, oldEnd, r);
      }
    }

    /** A live object beyond the boundary takes the first chunk of its size and
        is forwarded there. */
    method GivePlace(r: int, ghost cur: int, ghost end: int, ghost i: int, ghost ct: int) returns (c: int)
      requires InMove(cur, end) && (cur != NIL ==> Progress(cur, end, i, ct))
      requires r in plan.live && r >= end && r !in to && 0 <= r < mem.Length && mem[r] == snap[r] && end in plan.len
      requires r != cur
      modifies this`plan, this`to, this`names, mem, freeLists.Repr
      ensures InMove(cur, end) && (cur != NIL ==> Progress(cur, end, i, ct))
      ensures to == old(to)[r := c]
      ensures plan.live == old(plan.live) && plan.len == old(plan.len)
      ensures fresh(freeLists.Repr - old(freeLists.Repr)) && freeLists == old(freeLists)
    {
      hide IIXSc.Valid, Reachables, Moving, NamesMoved, Reclaim, Progressing;
      ghost var m, p, heads, to0 := mem[..], plan, freeLists.counts, to;
      HeadWord(snap, p, oldStart, boundary, end, nextGen, oldEnd, r);
      ReachablesMarked(snap, p, oldStart, boundary, end, nextGen, oldEnd);
      PlaceMoving(m, snap, p, heads, to0, done, cur, oldStart, boundary, end, nextGen, r);
      NamesPlaced(m, snap, p, heads, to0, done, cur, oldStart, boundary, end, nextGen, oldEnd, r, names, named) by {
        ReachablesLimit(snap, p, oldStart, boundary, end, nextGen, oldEnd);
      }
      var size := mem[r].size;
      c := PopChunk(size);
      mem[c] := mem[r];
      mem[r] := Forward(c);
      assert mem[..] == Forwarding(m, r, c);
      UpdateObjectLocation(r, c);
      plan := Reclaim(p, size);
      to := to0[r := c];
      ReachablesSame(snap, p, plan, oldStart, boundary, end, nextGen, oldEnd);
      if cur != NIL {
        PlaceProgress(m, snap, p, heads, to0, done, cur, oldStart, boundary, end, nextGen, r, c, i, ct, plan);
      }
    }

    /** The first chunk of a size leaves its free list. */
    method PopChunk(size: int) returns (c: int)
      requires Tables() && size >= 0
      requires 0 <= ListHead(freeLists.counts, size) < mem.Length && mem[ListHead(freeLists.counts, size)].Link?
      modifies freeLists.Repr
      ensures Tables() && c == ListHead(old(freeLists.counts), size) && 0 <= c < mem.Length && mem[c].Link?
      ensures freeLists.counts == old(freeLists.counts)[size := mem[c].next]
      ensures fresh(freeLists.Repr - old(freeLists.Repr))
    {
      hide IIXSc.Valid;
      c := freeLists.Lookup(size);
      freeLists.Insert(size, mem[c].next);
    }

    /** move_fields for a forwarded object, and clearing the mark. */
    method MoveFields(o: int, ghost end: int)
      requires InMove(NIL, end) && o in to && o !in done && o in plan.live
      modifies this`plan, this`to, this`names, this`done, mem, freeLists.Repr
      ensures InMove(NIL, end) && done == old(done) + {o}
      ensures plan.live == old(plan.live) && plan.len == old(plan.len)
      ensures forall a :: a in old(to) ==> a in to && to[a] == old(to)[a]
      ensures fresh(freeLists.Repr - old(freeLists.Repr)) && freeLists == old(freeLists)
    {
      hide IIXSc.Valid, Reachables, Moving, NamesMoved, Progressing;
      HeadWord(snap, plan, oldStart, boundary, end, nextGen, oldEnd, o);
      ReachablesMarked(snap, plan, oldStart, boundary, end, nextGen, oldEnd);
      TargetBounds(mem[..], snap, plan, freeLists.counts, to, done, NIL, oldStart, boundary, end, nextGen, o);
      BeginMove(mem[..], snap, plan, freeLists.counts, to, done, o, oldStart, boundary, end, nextGen);
      ProgressStart(mem[..], snap, plan, freeLists.counts, to, done, o, oldStart, boundary, end, nextGen);
      var p, ct0 := mem[o].to, mem[mem[o].to].ct;
      var size := mem[p].size;
      var ct := CheckAndFindNew(ct0, o, end, 0, ct0);
      ghost var m := mem[..];
      ProgressHead(m, snap, plan, freeLists.counts, to, done, o, oldStart, boundary, end, nextGen, ct0);
      mem[p] := Head(size, true, ct);
      assert mem[..] == m[p := Head(size, true, ct)];
      MoveWords(o, p, size, end, ct);
      m := mem[..];
      ProgressEnd(m, snap, plan, freeLists.counts, to, done, o, oldStart, boundary, end, nextGen);
      mem[p] := Head(size, false, ct);
      assert mem[..] == m[p := Head(size, false, ct)];
      done := done + {o};
    }

    /** The words after the flags word. */
    method MoveWords(o: int, p: int, size: int, ghost end: int, ghost ct: int)
      requires InMove(o, end) && o in plan.live && o in to && o != NIL && 1 <= size && Progress(o, end, 1, ct)
      requires p == to[o] && o in plan.len && size == plan.len[o] && 0 <= o < |snap| && snap[o].Head? && ct == Renamed(to, snap[o].ct)
      modifies this`plan, this`to, this`names, mem, freeLists.Repr
      ensures InMove(o, end) && Progress(o, end, size, ct) && ct == Renamed(to, snap[o].ct)
      ensures plan.live == old(plan.live) && plan.len == old(plan.len)
      ensures forall a :: a in old(to) ==> a in to && to[a] == old(to)[a]
      ensures fresh(freeLists.Repr - old(freeLists.Repr)) && freeLists == old(freeLists)
    {
      hide IIXSc.Valid, Reachables, Moving, NamesMoved, Progressing;
      var i := 1;
      while i < size
        invariant 1 <= i <= size && InMove(o, end) && Progress(o, end, i, ct)
        invariant plan.live == old(plan.live) && plan.len == old(plan.len)
        invariant forall a :: a in old(to) ==> a in to && to[a] == old(to)[a]
        invariant ct == Renamed(to, snap[o].ct)
        invariant fresh(freeLists.Repr - old(freeLists.Repr)) && freeLists == old(freeLists)
      {
        MoveWord(o, p, i, end, ct);
        i := i + 1;
      }
    }

    method MoveWord(o: int, p: int, i: int, ghost end: int, ghost ct: int)
      requires InMove(o, end) && Progress(o, end, i, ct) && o in plan.live && o in to && o != NIL
      requires p == to[o] && 1 <= i < plan.len[o] && ct == Renamed(to, snap[o].ct) && 0 <= o < |snap| && snap[o].Head?
      modifies this`plan, this`to, this`names, mem, freeLists.Repr
      ensures InMove(o, end) && Progress(o, end, i + 1, ct) && ct == Renamed(to, snap[o].ct)
      ensures plan.live == old(plan.live) && plan.len == old(plan.len)
      ensures forall a :: a in old(to) ==> a in to && to[a] == old(to)[a]
      ensures fresh(freeLists.Repr - old(freeLists.Repr)) && freeLists == old(freeLists)
    {
      hide IIXSc.Valid, Reachables, Moving, NamesMoved, Progressing;
      BodyWord(mem[..], snap, plan, freeLists.counts, to, done, o, oldStart, boundary, end, nextGen, oldEnd, o, i);
      HeadSettled(mem[..], snap, plan, to, end, o, i, ct);
      var w := mem[o + i];
      if w.Ref? {
        var r := CheckAndFindNew(w.target, o, end, i, ct);
        w := Ref(r);
      }
      ghost var m := mem[..];
      DataSettled(plan, to, end, oldStart, boundary, nextGen, oldEnd, snap);
      ProgressNext(m, snap, plan, freeLists.counts, to, done, o, oldStart, boundary, end, nextGen, i, ct);
      mem[p + i] := w;
      assert mem[..] == m[p + i := w];
    }

    /** moveThemPuppies: moves every live object beyond the boundary into a chunk
        of exactly its size. */
    method MoveThemPuppies(ghost end: int)
      requires Planned(end) && Reachables(snap, plan, oldStart, boundary, end, nextGen, oldEnd)
      requires NamesLive(names, plan.live, oldStart, oldEnd)
      modifies this`plan, this`to, this`names, this`named, this`done, mem, freeLists.Repr
      ensures MovedAll(mem[..], snap, plan, to, oldStart, boundary, end)
      ensures NamesMoved(names, old(names), to, plan.live, oldStart, oldEnd)
      ensures plan.live == old(plan.live) && plan.len == old(plan.len)
    {
      hide IIXSc.Valid, Reachables, Moving, NamesMoved, Complete, MovedAll;
      ReachablesMarked(snap, plan, oldStart, boundary, end, nextGen, oldEnd);
      StartMove(mem[..], snap, plan, freeLists.counts, oldStart, boundary, end, nextGen);
      to, done, named := map[], {}, names;
      NamesNone(names, plan.live, oldStart, oldEnd);
      var o := boundary;
      while o < nextGen
        invariant InMove(NIL, end) && named == old(names)
        invariant (o == boundary < end) || (end <= o && (o == nextGen || o in plan.len))
        invariant forall a :: a in plan.live && end <= a < o ==> a in done
        invariant forall a :: a in done ==> a < o
        invariant plan.live == old(plan.live) && plan.len == old(plan.len)
        invariant freeLists == old(freeLists) && fresh(freeLists.Repr - old(freeLists.Repr))
        decreases nextGen - o
      {
        var size := MoveObject(o, end);
        o := o + size;
      }
      ReachablesMarked(snap, plan, oldStart, boundary, end, nextGen, oldEnd);
      MoveComplete(mem[..], snap, plan, freeLists.counts, to, done, oldStart, boundary, end, nextGen);
    }

    static lemma NamesNone(names: map<int, int>, live: set<int>, lo: int, limit: int)
      requires NamesLive(names, live, lo, limit)
      ensures NamesMoved(names, names, map[], live, lo, limit)
    {
      assert NamedNow(names, map[]).Keys == names.Keys;
      assert forall a :: a in names ==> NamedNow(names, map[])[a] == names[a];
    }

    static lemma ReachablesLimit(hm: seq<Word>, p: Plan, lo: int, b: int, end: int, hi: int, limit: int)
      requires Reachables(hm, p, lo, b, end, hi, limit)
      ensures hi <= limit
    {
    }

    static lemma PassGap(m: seq<Word>, hm: seq<Word>, p: Plan, heads: map<int, int>, to: map<int, int>,
                         done: set<int>, lo: int, b: int, end: int, hi: int, limit: int)
      requires Moving(m, hm, p, heads, to, done, NIL, lo, b, end, hi) && b < end
      requires Reachables(hm, p, lo, b, end, hi, limit)
      ensures 0 <= b < end <= hi <= |m| && m[b].Head? && !m[b].mark && m[b].size == end - b
      ensures end == hi || end in p.len
    {
    }

    /** One object of the sweep: the filler at the boundary, an object that has
        been forwarded already, or a live or a dead one. */
    method MoveObject(o: int, ghost end: int) returns (size: int)
      requires InMove(NIL, end) && o < nextGen && (o == boundary < end || (end <= o && o in plan.len && o !in done))
      modifies this`plan, this`to, this`names, this`done, mem, freeLists.Repr
      ensures InMove(NIL, end) && size >= 1
      ensures end <= o + size <= nextGen && (o + size == nextGen || o + size in plan.len)
      ensures forall a :: a in plan.live && end <= a < o + size ==> a in done || a < o
      ensures old(done) <= done && forall a :: a in done ==> a in old(done) || a == o
      ensures plan.live == old(plan.live) && plan.len == old(plan.len)
      ensures freeLists == old(freeLists) && fresh(freeLists.Repr - old(freeLists.Repr))
    {
      hide IIXSc.Valid, Reachables, Moving, NamesMoved, Progressing;
      if o < end {
        PassGap(mem[..], snap, plan, freeLists.counts, to, done, oldStart, boundary, end, nextGen, oldEnd);
      } else {
        AtObject(mem[..], snap, plan, freeLists.counts, to, done, NIL, oldStart, boundary, end, nextGen, oldEnd, o);
      }
      if mem[o].Forward? {
        TargetBounds(mem[..], snap, plan, freeLists.counts, to, done, NIL, oldStart, boundary, end, nextGen, o);
        HeadWord(snap, plan, oldStart, boundary, end, nextGen, oldEnd, o);
        size := mem[mem[o].to].size;
        MoveFields(o, end);
      } else {
        size := mem[o].size;
        if mem[o].mark {
          var new' := GivePlace(o, NIL, end, 0, 0);
          MoveFields(o, end);
        }
      }
    }

    // ----- bringing references up to date -----

    /** A reference into the old generation is to a live object. */
    ghost predicate ToLive(r: int)
      reads this`plan
    {
      oldStart <= r < oldEnd ==> r in plan.live
    }

    /** Every live object can be found: it stays, or has left a forwarding pointer. */
    ghost predicate Following(end: int)
      reads this, mem
    {
      && Homes(plan, to, oldStart, boundary, end) && Forwards(mem[..], to)
      && (forall a :: a in plan.live ==> oldStart <= a < oldEnd && (a < boundary || a >= end))
    }

    /** followForwardingOld. */
    method FollowForwarding(r: int, ghost end: int) returns (new': int)
      requires Following(end) && (ToLive(r) || oldStart <= r < boundary)
      ensures new' == Renamed(to, r)
    {
      hide Targets, Tiling;
      if oldStart <= r < oldEnd {
        if r < boundary {
          new' := r;
        } else {
          new' := mem[r].to;
        }
      } else {
        new' := r;
      }
    }

    /** tl_move with followForwardingOld, over the words of objects. */
    method ForwardWords(from: int, upto: int, ghost end: int)
      requires Following(end) && 0 <= from <= upto <= mem.Length && (upto <= boundary || oldEnd <= from)
      requires forall k :: from <= k < upto ==> ToLive(RefOf(mem[k]))
      modifies mem
      ensures Following(end) && RenamedWords(old(mem[..]), mem[..], to, from, upto)
    {
      hide Homes, RenamedWords;
      ghost var m0 := mem[..];
      var k := from;
      RenamedNone(m0, to, from);
      PlacedKeys(plan, to, oldStart, boundary, end);
      while k < upto
        invariant from <= k <= upto && Following(end) && RenamedWords(m0, mem[..], to, from, k)
      {
        RenamedNext(m0, mem[..], to, from, k);
        ghost var m := mem[..];
        assert ToLive(RefOf(m0[k]));
        match mem[k] {
          case Head(size, mark, ct) =>
            var new' := FollowForwarding(ct, end);
            mem[k] := Head(size, mark, new');
          case Ref(target) =>
            var new' := FollowForwarding(target, end);
            mem[k] := Ref(new');
          case _ =>
        }
        assert mem[..] == m[k := MapWord(to, m0[k])];
        k := k + 1;
      }
    }

    static lemma PlacedKeys(p: Plan, to: map<int, int>, lo: int, b: int, end: int)
      requires Homes(p, to, lo, b, end)
      ensures forall a :: a in to ==> a in p.live && a >= end >= b
    {
    }

    /** The fix-up of the old generation has reached tile `o`. */
    ghost predicate Fixing(end: int, o: int)
      reads this, mem
    {
      && Following(end) && end <= nextGen <= oldEnd
      && Reachables(snap, plan, oldStart, boundary, end, nextGen, oldEnd)
      && Settling(mem[..], snap, plan, to, oldStart, boundary, end, o)
    }

    /** funky_forward_old: a marked object is brought up to date and unmarked. */
    method UpdateObject(o: int, ghost end: int) returns (size: int)
      requires Fixing(end, o) && o in plan.tile
      modifies mem
      ensures Fixing(end, o + size) && size == plan.tile[o] >= 1
      ensures forall k :: 0 <= k < mem.Length && boundary <= k ==> mem[k] == old(mem[k])
    {
      hide Settling, Reachables, Homes, Forwards, Tiling;
      ghost var m := mem[..];
      ReachablesMarked(snap, plan, oldStart, boundary, end, nextGen, oldEnd);
      SettleSees(m, snap, plan, to, oldStart, boundary, end, o, nextGen);
      size := mem[o].size;
      if mem[o].mark {
        ObjectWords(m, snap, plan, oldStart, boundary, end, nextGen, oldEnd, o);
        ForwardWords(o, o + size, end);
        ghost var m1 := mem[..];
        mem[o] := mem[o].(mark := false);
        ObjectUpdated(m, m1, mem[..], snap, plan, to, o, size);
        SettleLive(m, mem[..], snap, plan, to, oldStart, boundary, end, o);
        SettleDone(mem[..], snap, plan, to, oldStart, boundary, end, o + size);
      } else {
        SettleDead(m, snap, plan, to, oldStart, boundary, end, o);
      }
    }

    static lemma ObjectWords(m: seq<Word>, hm: seq<Word>, p: Plan, lo: int, b: int, end: int, hi: int, limit: int, o: int)
      requires Reachables(hm, p, lo, b, end, hi, limit) && o in p.live && o in p.len && |m| == |hm| && 0 <= o && o + p.len[o] <= |m|
      requires forall k :: o <= k < o + p.len[o] ==> m[k] == hm[k]
      ensures forall k :: o <= k < o + p.len[o] ==> (lo <= RefOf(m[k]) < limit ==> RefOf(m[k]) in p.live)
    {
    }

    static lemma ObjectUpdated(m: seq<Word>, m1: seq<Word>, m2: seq<Word>, hm: seq<Word>, p: Plan, to: map<int, int>, o: int, n: int)
      requires |m| == |hm| && 0 <= o < o + n <= |m| && m[o].Head? && m[o].size == n && m[o].mark
      requires forall k :: o <= k < o + n ==> m[k] == hm[k]
      requires RenamedWords(m, m1, to, o, o + n) && m1[o].Head? && m2 == m1[o := m1[o].(mark := false)]
      ensures WritesTile(m, m2, o, n) && Copied(m2, hm, to, o, o, n)
    {
    }

    /** doToOldGeneration(funky_forward_old), up to the boundary. */
    method UpdateOld(ghost end: int)
      requires Fixing(end, oldStart)
      modifies mem
      ensures Fixing(end, boundary)
      ensures forall k :: 0 <= k < mem.Length && boundary <= k ==> mem[k] == old(mem[k])
    {
      hide Settling, Reachables, Forwards;
      SettleTile(mem[..], snap, plan, to, oldStart, boundary, end, oldStart);
      var o := oldStart;
      while o < boundary
        invariant Fixing(end, o) && o <= boundary && (o == boundary || o in plan.tile)
        invariant forall k :: 0 <= k < mem.Length && boundary <= k ==> mem[k] == old(mem[k])
      {
        PlacedNext(plan, to, oldStart, boundary, end, o);
        var size := UpdateObject(o, end);
        o := o + size;
      }
    }

    static lemma SettleTile(m: seq<Word>, hm: seq<Word>, p: Plan, to: map<int, int>, lo: int, b: int, end: int, o: int)
      requires Settling(m, hm, p, to, lo, b, end, o)
      ensures lo <= b && (lo == b || lo in p.tile)
    {
    }

    static lemma PlacedNext(p: Plan, to: map<int, int>, lo: int, b: int, end: int, o: int)
      requires Homes(p, to, lo, b, end) && o in p.tile
      ensures o + p.tile[o] <= b && (o + p.tile[o] == b || o + p.tile[o] in p.tile)
    {
      assert Followed(p.tile, o, b);
    }

    /** doToNewGeneration(forward_old). */
    method UpdateYoung(youngStart: int, youngEnd: int, ghost end: int)
      requires Fixing(end, oldStart) && oldEnd <= youngStart <= youngEnd <= mem.Length
      requires forall k :: youngStart <= k < youngEnd ==> ToLive(RefOf(mem[k]))
      modifies mem
      ensures Fixing(end, oldStart) && RenamedWords(old(mem[..]), mem[..], to, youngStart, youngEnd)
    {
      hide Settling, Reachables, Homes, Forwards, RenamedWords;
      ghost var m := mem[..];
      ReachablesMarked(snap, plan, oldStart, boundary, end, nextGen, oldEnd);
      SettleTile(m, snap, plan, to, oldStart, boundary, end, oldStart);
      FixingNonneg(snap, plan, oldStart, nextGen);
      ForwardWords(youngStart, youngEnd, end);
      RenamedBelow(m, mem[..], to, youngStart, youngEnd);
      SettleOutside(m, mem[..], snap, plan, to, oldStart, boundary, end, oldStart, nextGen, oldEnd);
    }

    static lemma FixingNonneg(hm: seq<Word>, p: Plan, lo: int, hi: int)
      requires MarkedHeap(hm, p.live, p.len, lo, hi)
      ensures 1 <= lo <= hi
    {
    }

    static lemma RenamedBelow(m: seq<Word>, m': seq<Word>, to: map<int, int>, from: int, upto: int)
      requires RenamedWords(m, m', to, from, upto)
      ensures |m'| == |m| && forall k :: 0 <= k < |m| && k < from ==> m'[k] == m[k]
    {
    }

    /** doToExternalRoots with followForwardingOld. */
    method UpdateRoots(roots: array<int>, ghost end: int)
      requires Fixing(end, oldStart) && forall i :: 0 <= i < roots.Length ==> ToLive(roots[i])
      modifies roots
      ensures Fixing(end, oldStart) && roots[..] == Renaming(old(roots[..]), to)
    {
      hide Settling, Reachables, Homes, Forwards;
      var i := 0;
      while i < roots.Length
        invariant 0 <= i <= roots.Length && Fixing(end, oldStart)
        invariant forall j :: 0 <= j < i ==> roots[j] == Renamed(to, old(roots[j]))
        invariant forall j :: i <= j < roots.Length ==> roots[j] == old(roots[j])
      {
        assert ToLive(roots[i]);
        var new' := FollowForwarding(roots[i], end);
        roots[i] := new';
        i := i + 1;
      }
    }

    // ----- the remembered set -----

    /** clearRememberedBits. */
    method ClearRememberedBits()
      requires forall a :: a in remSet ==> 0 <= a < mem.Length && mem[a].Head?
      modifies mem
      ensures FlaggedUpTo(old(mem[..]), mem[..], remSet, |remSet|, false)
    {
      hide FlaggedUpTo;
      ghost var m0 := mem[..];
      FlaggedNone(m0, remSet, false);
      var i := 0;
      while i < |remSet|
        invariant 0 <= i <= |remSet| && FlaggedUpTo(m0, mem[..], remSet, i, false)
        invariant forall a :: a in remSet ==> 0 <= a < mem.Length && mem[a].Head?
      {
        ghost var m := mem[..];
        assert remSet[i] in remSet;
        FlaggedNext(m0, m, remSet, i, false);
        mem[remSet[i]] := mem[remSet[i]].(mark := false);
        assert mem[..] == m[remSet[i] := m[remSet[i]].(mark := false)];
        i := i + 1;
      }
    }

    /** purgeRememberedSet: unmarked members are struck out, and ch_rem_set then
        closes the gaps. */
    method PurgeRememberedSet()
      requires forall a :: a in remSet ==> 0 <= a < mem.Length && mem[a].Head? && (mem[a].mark <==> a in plan.live)
      modifies this`remSet
      ensures remSet == Only(old(remSet), plan.live)
    {
      ghost var rem := remSet;
      var i := 0;
      while i < |remSet|
        invariant 0 <= i <= |remSet| == |rem|
        invariant forall j :: 0 <= j < i ==> remSet[j] == if rem[j] in plan.live then rem[j] else NIL
        invariant forall j :: i <= j < |rem| ==> remSet[j] == rem[j]
      {
        assert rem[i] in rem;
        if !mem[remSet[i]].mark {
          remSet := remSet[i := NIL];
        }
        i := i + 1;
      }
      assert forall j :: 0 <= j < |rem| ==> rem[j] in rem && rem[j] != NIL;
      var kept: seq<int> := [];
      ghost var struck := remSet;
      i := 0;
      while i < |remSet|
        invariant remSet == struck && 0 <= i <= |rem| && kept == Only(rem[..i], plan.live)
      {
        OnlyNext(rem, plan.live, i);
        if remSet[i] != NIL {
          kept := kept + [remSet[i]];
        }
        i := i + 1;
      }
      assert rem[..|rem|] == rem;
      remSet := kept;
    }

    /** setRememberedBits: the members follow their objects. */
    method SetRememberedBits(ghost end: int)
      requires Following(end) && forall a :: a in remSet ==> a in plan.live
      requires forall a :: a in plan.live ==> 0 <= Renamed(to, a) < boundary && Renamed(to, a) < mem.Length && mem[Renamed(to, a)].Head?
      modifies this`remSet, mem
      ensures remSet == Renaming(old(remSet), to)
      ensures FlaggedUpTo(old(mem[..]), mem[..], remSet, |remSet|, true)
    {
      hide FlaggedUpTo, Homes;
      ghost var m0, rem := mem[..], remSet;
      ghost var new' := Renaming(rem, to);
      PlacedKeys(plan, to, oldStart, boundary, end);
      FlaggedNone(m0, new', true);
      var i := 0;
      while i < |remSet|
        invariant 0 <= i <= |remSet| == |rem| && FlaggedUpTo(m0, mem[..], new', i, true)
        invariant forall j :: 0 <= j < i ==> remSet[j] == new'[j]
        invariant forall j :: i <= j < |rem| ==> remSet[j] == rem[j]
        invariant forall a :: a in to ==> 0 <= a < mem.Length && mem[a] == Forward(to[a])
        invariant forall a :: a in plan.live ==> mem[Renamed(to, a)].Head?
      {
        ghost var m := mem[..];
        var o := remSet[i];
        assert o in rem;
        assert o in to <==> o >= boundary;
        if o >= boundary {
          remSet := remSet[i := mem[o].to];
        }
        assert remSet[i] == new'[i] == Renamed(to, o);
        FlaggedNext(m0, m, new', i, true);
        mem[remSet[i]] := mem[remSet[i]].(mark := true);
        assert mem[..] == m[new'[i] := m[new'[i]].(mark := true)];
        i := i + 1;
      }
      assert remSet == new';
    }

    // ----- the object table -----

    /** purgeObjectTable: the entries of old objects that are not marked go. */
    method PurgeObjectTable(table: map<int, int>, slots: seq<int>) returns (kept: map<int, int>)
      requires (forall a :: a in table ==> a in slots)
      requires forall a :: a in table && oldStart <= table[a] < oldEnd
                           ==> 0 <= table[a] < mem.Length && mem[table[a]].Head? && (mem[table[a]].mark <==> table[a] in plan.live)
      ensures kept == Purged(table, oldStart, oldEnd, plan.live)
    {
      kept := table;
      var i := 0;
      while i < |slots|
        invariant 0 <= i <= |slots|
        invariant forall a :: a in kept <==> a in table && (a in slots[..i] && oldStart <= table[a] < oldEnd ==> table[a] in plan.live)
        invariant forall a :: a in kept ==> kept[a] == table[a]
      {
        var a := slots[i];
        assert slots[..i + 1] == slots[..i] + [a];
        if a in kept && oldStart <= kept[a] < oldEnd && !mem[kept[a]].mark {
          kept := kept - {a};
        }
        i := i + 1;
      }
      assert slots[..|slots|] == slots;
      ghost var purged := Purged(table, oldStart, oldEnd, plan.live);
      assert forall a :: a in kept ==> a in purged && kept[a] == purged[a];
      assert forall a :: a in purged ==> a in kept;
    }

    /** The remaining entries follow their objects. */
    method FollowObjectTable(table: map<int, int>, slots: seq<int>, ghost end: int) returns (new': map<int, int>)
      requires Following(end) && (forall a :: a in table ==> a in slots && (ToLive(table[a]) || oldStart <= table[a] < boundary))
      ensures new' == map a | a in table :: Renamed(to, table[a])
    {
      hide Following, ToLive;
      new' := table;
      var i := 0;
      while i < |slots|
        invariant 0 <= i <= |slots| && new'.Keys == table.Keys
        invariant forall a :: a in table ==> new'[a] == if a in slots[..i] then Renamed(to, table[a]) else table[a]
      {
        var a := slots[i];
        assert slots[..i + 1] == slots[..i] + [a];
        if a in table {
          var r := FollowForwarding(table[a], end);
          new' := new'[a := r];
        }
        i := i + 1;
      }
      assert slots[..|slots|] == slots;
      assert forall a :: a in table ==> new'[a] == Renamed(to, table[a]);
    }

    // ----- the whole collection -----

    /** The heap between collections, seen from its parts. */
    ghost function Whole(len: map<int, int>, youngStart: int, youngEnd: int, roots: array<int>): World
      reads this, mem, roots
    {
      World(mem[..], len, oldStart, nextGen, oldEnd, youngStart, youngEnd, roots[..])
    }

    /** The marking is complete: just the reachable objects are marked. */
    ghost predicate Marked(m: seq<Word>)
      reads this
    {
      && WellFormed(world) && OnlyMarks(world, m, plan.live) && Closed(world, plan.live)
      && plan.len == world.len && world.lo == oldStart && world.hi == nextGen && world.limit == oldEnd
      && (forall a :: a in plan.live ==> IsObject(world, a))
    }

    /** Clears the remembered bits and marks everything reachable. */
    method MarkPhase(youngStart: int, youngEnd: int, roots: array<int>, ghost w: World)
      requires w == Whole(w.len, youngStart, youngEnd, roots) && Sound(w, remSet) && mem.Length < TERMINATOR
      modifies this, mem
      ensures InMarking({}) && moveStack == [] && Marked(mem[..])
      ensures world == Unflagged(w) && forall a :: a in plan.live <==> Reachable(world, a)
      ensures freeWords == wordsWasted == 0 && freeLists.counts == map[] && !liveSizes.compacted
      ensures remSet == old(remSet) && nextGen == old(nextGen)
      ensures fresh(liveSizes.Repr) && fresh(freeLists.Repr)
    {
      hide IIXSc.Valid, MarkingState, Reachable, Closed, HasRoots, Sound;
      BeginMarking(youngStart, youngEnd, roots, w);
      MarkAll(youngStart, youngEnd, roots);
      MarkExact(world, mem[..], plan.live, hist, wordsNeeded);
      MarkedFacts(world, mem[..], plan.live, hist, wordsNeeded);
    }

    /** Fresh tables, and no bits set. */
    method BeginMarking(youngStart: int, youngEnd: int, roots: array<int>, ghost w: World)
      requires w == Whole(w.len, youngStart, youngEnd, roots) && Sound(w, remSet) && mem.Length < TERMINATOR
      modifies this, mem
      ensures InMarking({}) && moveStack == [] && world == Unflagged(w)
      ensures freeWords == wordsWasted == 0 && freeLists.counts == map[] && !liveSizes.compacted
      ensures remSet == old(remSet) && nextGen == old(nextGen)
      ensures fresh(liveSizes.Repr) && fresh(freeLists.Repr)
    {
      hide IIXSc.Valid, MarkingState, Sound, WellFormed, FlaggedUpTo, Unflagged, Tallies;
      SoundRemembered(w, remSet);
      ClearRememberedBits();
      FlagsClear(w, remSet, mem[..]);
      UnflaggedParts(w);
      NewTables();
      ResetMarking(Unflagged(w));
    }

    /** Nothing is marked yet. */
    method ResetMarking(ghost u: World)
      requires WellFormed(u) && u.m == mem[..] && u.lo == oldStart && u.hi == nextGen && u.limit == oldEnd
      requires Tables() && liveSizes.counts == map[] && !liveSizes.compacted && mem.Length < TERMINATOR
      requires liveObjectsLeft == wordsNeeded == 0
      modifies this`world, this`plan, this`hist, this`freeWords, this`moveStack
      ensures InMarking({}) && moveStack == [] && world == u && freeWords == 0
    {
      hide IIXSc.Valid, MarkingState;
      MarkStart(u);
      assert 1 <= u.lo;
      world, plan, hist, freeWords, moveStack := u, Unswept(u, {}), multiset{}, 0, [];
    }

    static lemma UnflaggedParts(w: World)
      ensures Unflagged(w) == World(Unflagged(w).m, w.len, w.lo, w.hi, w.limit, w.ylo, w.yhi, w.roots)
    {
    }

    method NewTables()
      modifies this`liveSizes, this`freeLists, this`liveObjectsLeft, this`wordsNeeded, this`wordsWasted
      ensures Tables() && fresh(liveSizes.Repr) && fresh(freeLists.Repr)
      ensures liveSizes.counts == freeLists.counts == map[] && !liveSizes.compacted
      ensures liveObjectsLeft == wordsNeeded == wordsWasted == 0
    {
      hide IIXSc.Valid;
      liveObjectsLeft, wordsNeeded, wordsWasted := 0, 0, 0;
      liveSizes := new IIXSc(hash);
      freeLists := new IIXSc(hash);
    }

    static lemma SoundRemembered(w: World, rem: seq<int>)
      requires Sound(w, rem)
      ensures WellFormed(Unflagged(w)) && w.lo >= 1
      ensures forall a :: a in rem ==> a in w.len && 0 <= a < |w.m| && w.m[a].Head?
    {
    }

    static lemma MarkedFacts(w: World, m: seq<Word>, live: set<int>, hist: multiset<int>, words: int)
      requires MarkingState(w, m, live, [], {}, hist, words)
      ensures WellFormed(w) && OnlyMarks(w, m, live) && forall a :: a in live ==> IsObject(w, a)
    {
    }

    /** Finds the boundary and moves what lies beyond it. */
    method CompactPhase() returns (ghost end: int)
      requires InMarking({}) && moveStack == [] && Marked(mem[..])
      requires freeWords == wordsWasted == 0 && freeLists.counts == map[] && !liveSizes.compacted
      requires NamesLive(names, plan.live, oldStart, oldEnd)
      modifies this`plan, this`hist, this`freeWords, this`wordsWasted, this`liveObjectsLeft, this`boundary
      modifies this`snap, this`to, this`names, this`named, this`done, mem, liveSizes.Repr, freeLists.Repr
      ensures NamesMoved(names, old(names), to, plan.live, oldStart, oldEnd)
      ensures snap == old(mem[..]) && Marked(snap) && plan.live == old(plan.live)
      ensures MovedAll(mem[..], snap, plan, to, oldStart, boundary, end)
      ensures Reachables(snap, plan, oldStart, boundary, end, nextGen, oldEnd) && end <= nextGen
      ensures boundary - oldStart == wordsNeeded + wordsWasted
      ensures wordsNeeded == LiveWords(plan.live, world.len, oldStart, nextGen)
    {
      hide IIXSc.Valid, MarkingState, Closed, WellFormed, OnlyMarks, SweptAt, Owed, MarkedHeap, MovedAll, Reachables, Complete, Tallies,
           NamesLive, NamesMoved;
      ghost var live, h, words := plan.live, hist, wordsNeeded;
      end := BoundaryPhase();
      MoveThemPuppies(end);
      MarkedClosed(world, snap, live, h, words, plan, boundary, end);
    }

    /** Finds the boundary. */
    method BoundaryPhase() returns (ghost end: int)
      requires InMarking({}) && moveStack == [] && Marked(mem[..])
      requires freeWords == wordsWasted == 0 && freeLists.counts == map[] && !liveSizes.compacted
      modifies this`plan, this`hist, this`freeWords, this`wordsWasted, this`liveObjectsLeft, this`boundary
      modifies this`snap, mem, liveSizes.Repr, freeLists.Repr
      ensures snap == old(mem[..]) && Marked(snap) && plan.live == old(plan.live) && plan.len == old(plan.len)
      ensures Planned(end) && Reachables(snap, plan, oldStart, boundary, end, nextGen, oldEnd) && end <= nextGen
      ensures forall a :: a in plan.live ==> a < boundary || a >= end
      ensures fresh(liveSizes.Repr - old(liveSizes.Repr)) && fresh(freeLists.Repr - old(freeLists.Repr))
      ensures boundary - oldStart == wordsNeeded + wordsWasted
      ensures wordsNeeded == LiveWords(plan.live, world.len, oldStart, nextGen)
    {
      hide IIXSc.Valid, MarkingState, Closed, WellFormed, OnlyMarks, SweptAt, Owed, MarkedHeap, MovedAll, Reachables, Complete, Tallies,
           NamesLive, NamesMoved;
      snap := mem[..];
      ghost var live, h, words := plan.live, hist, wordsNeeded;
      MarkedReady(world, snap, live, h, words);
      end := FindBoundary();
      CompleteGap(mem[..], snap, plan, freeLists.counts, oldStart, boundary, end, nextGen);
      MarkedClosed(world, snap, live, h, words, plan, boundary, end);
    }

    static lemma CompleteGap(m: seq<Word>, hm: seq<Word>, p: Plan, heads: map<int, int>, lo: int, b: int, end: int, hi: int)
      requires Complete(m, hm, p, heads, lo, b, end, hi)
      ensures forall a :: a in p.live ==> a < b || a >= end
    {
    }

    /** Brings every reference up to date. */
    method FixPhase(youngStart: int, youngEnd: int, roots: array<int>, ghost end: int)
      requires Marked(snap) && world.ylo == youngStart && world.yhi == youngEnd && world.roots == roots[..]
      requires MovedAll(mem[..], snap, plan, to, oldStart, boundary, end) && end <= nextGen
      requires Reachables(snap, plan, oldStart, boundary, end, nextGen, oldEnd)
      modifies mem, roots
      ensures Fixed(world, plan.live, mem[..], snap, plan, to, boundary, end) && Following(end)
      ensures roots[..] == Renaming(world.roots, to)
    {
      hide Closed, WellFormed, OnlyMarks, MarkedHeap, MovedAll, Reachables, Settling, RenamedWords, Homes, Forwards, IsObject;
      ghost var m := mem[..];
      SettleStart(m, snap, plan, to, oldStart, boundary, end);
      SettleDone(m, snap, plan, to, oldStart, boundary, end, oldStart);
      LiveBounds(snap, plan, oldStart, boundary, end, nextGen, oldEnd);
      YoungWords(world, m, snap, plan, to, boundary, end);
      RootsLive(world, plan.live);
      UpdateYoung(youngStart, youngEnd, end);
      ghost var m1 := mem[..];
      UpdateRoots(roots, end);
      UpdateOld(end);
      YoungRenamed(world, m, m1, mem[..], to, boundary);
      ReachablesGap(snap, plan, oldStart, boundary, end, nextGen, oldEnd);
    }

    static lemma LiveBounds(hm: seq<Word>, p: Plan, lo: int, b: int, end: int, hi: int, limit: int)
      requires Reachables(hm, p, lo, b, end, hi, limit)
      ensures forall a :: a in p.live ==> lo <= a < limit && (a < b || a >= end)
      ensures hi <= limit
    {
    }

    static lemma ReachablesGap(hm: seq<Word>, p: Plan, lo: int, b: int, end: int, hi: int, limit: int)
      requires Reachables(hm, p, lo, b, end, hi, limit)
      ensures forall a :: a in p.live ==> a < b || a >= end
    {
    }

    /** The young generation is as it was before the collection. */
    static lemma YoungWords(w: World, m: seq<Word>, hm: seq<Word>, p: Plan, to: map<int, int>, b: int, end: int)
      requires WellFormed(w) && OnlyMarks(w, hm, p.live) && Closed(w, p.live) && p.len == w.len
      requires MovedAll(m, hm, p, to, w.lo, b, end) && end <= w.hi
      requires Reachables(hm, p, w.lo, b, end, w.hi, w.limit)
      ensures b <= w.limit <= w.ylo <= w.yhi <= |m| == |w.m|
      ensures forall k :: w.ylo <= k < w.yhi ==> m[k] == w.m[k] && (InOld(w, RefOf(m[k])) ==> RefOf(m[k]) in p.live)
    {
      forall k | w.ylo <= k < w.yhi
        ensures m[k] == w.m[k]
      {
        assert k !in w.len && k !in to;
      }
    }

    static lemma RootsLive(w: World, live: set<int>)
      requires Closed(w, live)
      ensures forall i :: 0 <= i < |w.roots| ==> (InOld(w, w.roots[i]) ==> w.roots[i] in live)
    {
    }

    static lemma YoungRenamed(w: World, m: seq<Word>, m1: seq<Word>, m2: seq<Word>, to: map<int, int>, b: int)
      requires RenamedWords(m, m1, to, w.ylo, w.yhi) && b <= w.ylo && |m2| == |m1| && |m| == |w.m|
      requires forall k :: w.ylo <= k < w.yhi && 0 <= k < |m| ==> m[k] == w.m[k]
      requires forall k :: 0 <= k < |m1| && b <= k ==> m2[k] == m1[k]
      ensures |m2| == |w.m| && forall k :: w.ylo <= k < w.yhi && 0 <= k < |m2| ==> m2[k] == MapWord(to, w.m[k])
    {
    }

    /** Marks, and strikes dead objects out of the object table and the
        remembered set. */
    method LivePhase(youngStart: int, youngEnd: int, roots: array<int>, table: map<int, int>, slots: seq<int>, ghost w: World)
      returns (kept: map<int, int>)
      requires w == Whole(w.len, youngStart, youngEnd, roots) && Sound(w, remSet) && mem.Length < TERMINATOR
      requires forall a :: a in table ==> a in slots && GoodRef(w, table[a])
      modifies this, mem
      ensures InMarking({}) && moveStack == [] && Marked(mem[..]) && world == Unflagged(w)
      ensures forall a :: a in plan.live <==> Reachable(world, a)
      ensures freeWords == wordsWasted == 0 && freeLists.counts == map[] && !liveSizes.compacted
      ensures remSet == Only(old(remSet), plan.live) && nextGen == old(nextGen)
      ensures kept == Purged(table, oldStart, oldEnd, plan.live)
      ensures fresh(liveSizes.Repr) && fresh(freeLists.Repr)
    {
      hide IIXSc.Valid, MarkingState, Reachable, Closed, Sound, WellFormed, OnlyMarks, Tallies, Purged, Only, IsObject;
      MarkPhase(youngStart, youngEnd, roots, w);
      SoundMembers(w, remSet);
      MembersMarked(world, mem[..], plan.live, remSet);
      EntriesMarked(w, world, mem[..], plan.live, table);
      kept := PurgeObjectTable(table, slots);
      PurgeRememberedSet();
    }

    /** Compacts, and brings every reference up to date. */
    method MovePhase(youngStart: int, youngEnd: int, roots: array<int>, table: map<int, int>, slots: seq<int>)
      returns (table': map<int, int>, ghost end: int)
      requires InMarking({}) && moveStack == [] && Marked(mem[..])
      requires world.ylo == youngStart && world.yhi == youngEnd && world.roots == roots[..]
      requires freeWords == wordsWasted == 0 && freeLists.counts == map[] && !liveSizes.compacted
      requires (forall a :: a in table ==> a in slots) && NamesLive(table, plan.live, oldStart, oldEnd)
      requires roots as object !in liveSizes.Repr && roots as object !in freeLists.Repr
      modifies this`plan, this`hist, this`freeWords, this`wordsWasted, this`liveObjectsLeft, this`boundary
      modifies this`snap, this`to, this`names, this`named, this`done, mem, roots, liveSizes.Repr, freeLists.Repr
      ensures Fixed(world, plan.live, mem[..], snap, plan, to, boundary, end) && Following(end)
      ensures roots[..] == Renaming(world.roots, to) && table' == map a | a in table :: Renamed(to, table[a])
      ensures plan.live == old(plan.live)
      ensures boundary - oldStart == wordsNeeded + wordsWasted
      ensures wordsNeeded == LiveWords(plan.live, world.len, oldStart, nextGen)
    {
      hide IIXSc.Valid, MarkingState, Closed, WellFormed, OnlyMarks, MovedAll, Reachables, Fixed, Homes, Forwards, Tallies, IsObject;
      hide NamesMoved, NamesLive;
      ghost var rs := roots[..];
      names := table;
      end := CompactPhase();
      ghost var m := mem[..];
      assert roots[..] == rs;
      FixPhase(youngStart, youngEnd, roots, end);
      NamesPlace(table, end) by {
        MovedBounds(m, snap, plan, to, oldStart, boundary, end);
      }
      table' := FollowObjectTable(names, slots, end);
    }

    static lemma MovedBounds(m: seq<Word>, hm: seq<Word>, p: Plan, to: map<int, int>, lo: int, b: int, end: int)
      requires MovedAll(m, hm, p, to, lo, b, end)
      ensures b <= end
    {
    }

    /** The identifiers name live objects and their new places. */
    lemma NamesPlace(table: map<int, int>, end: int)
      requires NamesMoved(names, table, to, plan.live, oldStart, oldEnd) && Following(end) && boundary <= end
      ensures names.Keys == table.Keys && forall a :: a in names ==> ToLive(names[a]) || oldStart <= names[a] < boundary
      ensures NamedNow(names, to) == NamedNow(table, to)
    {
      FollowedTwice(table, to, boundary, end);
    }

    static lemma PurgedLive(table: map<int, int>, lo: int, limit: int, live: set<int>)
      requires forall a, b :: a in table && b in table && a != b ==> table[a] != table[b]
      ensures NamesLive(Purged(table, lo, limit, live), live, lo, limit) && forall a :: a in Purged(table, lo, limit, live) ==> a in table
    {
    }

    /** gcollect_old: the reachable objects, and no others, are kept, each under
        one new address by which everything refers to it; the words between the
        start and the boundary are exactly the needed and the wasted ones. */
    method GCollectOld(youngStart: int, youngEnd: int, roots: array<int>, table: map<int, int>, slots: seq<int>, ghost w: World)
      returns (table': map<int, int>)
      requires w == Whole(w.len, youngStart, youngEnd, roots) && Sound(w, remSet) && mem.Length < TERMINATOR
      requires forall a :: a in table ==> a in slots && GoodRef(w, table[a])
      requires forall a, b :: a in table && b in table && a != b ==> table[a] != table[b]
      modifies this, mem, roots
      ensures table' == map a | a in Purged(table, oldStart, oldEnd, plan.live) :: Renamed(to, table[a])
      ensures forall a :: a in table' <==> a in table && (oldStart <= table[a] < oldEnd ==> table[a] in plan.live)
      ensures forall a :: a in table' ==> table'[a] == if table[a] in to then to[table[a]] else table[a]
      ensures forall a :: a in plan.live <==> Reachable(Unflagged(w), a)
      ensures forall a :: a in plan.live ==> IsObject(Unflagged(w), a)
      ensures Preserved(Unflagged(w), Whole(plan.tile, youngStart, youngEnd, roots), plan.live, to, remSet)
      ensures Sound(Whole(plan.tile, youngStart, youngEnd, roots), remSet)
      ensures remSet == Renaming(Only(old(remSet), plan.live), to)
      ensures nextGen - oldStart == wordsNeeded + wordsWasted && nextGen <= old(nextGen)
      ensures wordsNeeded == LiveWords(plan.live, w.len, oldStart, old(nextGen))
    {
      hide IIXSc.Valid, MarkingState, Closed, WellFormed, OnlyMarks, Reachable, Fixed, FlaggedUpTo, IsObject,
           Preserved, Sound, Homes, Forwards, Only, Tallies, GoodRef, NamesLive;
      table' := LivePhase(youngStart, youngEnd, roots, table, slots, w);
      PurgedLive(table, oldStart, oldEnd, plan.live);
      ghost var end;
      table', end := MovePhase(youngStart, youngEnd, roots, table', slots);
      Finishing(youngStart, youngEnd, roots, end, w, old(remSet));
    }

    /** The remembered bits are set again and the old generation ends at the boundary. */
    method Finishing(youngStart: int, youngEnd: int, roots: array<int>, ghost end: int, ghost w: World, ghost rem: seq<int>)
      requires Fixed(world, plan.live, mem[..], snap, plan, to, boundary, end) && Following(end) && roots[..] == Renaming(world.roots, to)
      requires Sound(w, rem) && world == Unflagged(w) && remSet == Only(rem, plan.live)
      requires w.lo == oldStart && w.limit == oldEnd && w.ylo == youngStart && w.yhi == youngEnd
      modifies this`remSet, this`nextGen, mem
      ensures Preserved(world, Whole(plan.tile, youngStart, youngEnd, roots), plan.live, to, remSet)
      ensures Sound(Whole(plan.tile, youngStart, youngEnd, roots), remSet)
      ensures remSet == Renaming(Only(rem, plan.live), to) && nextGen == boundary <= w.hi
    {
      hide MarkingState, Closed, WellFormed, OnlyMarks, Reachable, Fixed, FlaggedUpTo, Preserved, Sound, Homes, Forwards, Only;
      ghost var m := mem[..];
      FixedTiling(world, plan.live, m, snap, plan, to, boundary, end);
      forall a | a in plan.live
        ensures 0 <= Renamed(to, a) < boundary && m[Renamed(to, a)].Head?
      {
        NewPlace(world, plan.live, m, snap, plan, to, boundary, end, a);
      }
      OnlyHas(rem, plan.live);
      NewPlacesDiffer(world, plan.live, m, snap, plan, to, boundary, end);
      NewRemembered(w, rem, plan.live, to);
      SetRememberedBits(end);
      nextGen := boundary;
      ghost var v := Whole(plan.tile, youngStart, youngEnd, roots);
      AllPreserved(world, v, plan.live, m, snap, plan, to, boundary, end, remSet);
      FixedSound(world, plan.live, m, snap, plan, to, boundary, end);
      StillSound(world, v, plan.live, to, remSet);
    }

    static lemma FixedSound(w: World, live: set<int>, m: seq<Word>, hm: seq<Word>, p: Plan, to: map<int, int>, b: int, end: int)
      requires Fixed(w, live, m, hm, p, to, b, end)
      ensures WellFormed(w) && Closed(w, live) && forall x :: x in live ==> IsObject(w, x)
    {
    }

    static lemma EntriesMarked(w: World, u: World, m: seq<Word>, live: set<int>, table: map<int, int>)
      requires u == Unflagged(w) && OnlyMarks(u, m, live) && forall a :: a in table ==> GoodRef(w, table[a])
      ensures forall a :: a in table && w.lo <= table[a] < w.limit
                          ==> 0 <= table[a] < |m| && m[table[a]].Head? && (m[table[a]].mark <==> table[a] in live)
    {
      forall a | a in table && w.lo <= table[a] < w.limit
        ensures IsObject(w, table[a])
      {
        assert GoodRef(w, table[a]);
      }
    }

    static lemma SoundMembers(w: World, rem: seq<int>)
      requires Sound(w, rem)
      ensures forall a :: a in rem ==> a in w.len && 0 <= a < |w.m|
    {
    }

    static lemma MembersMarked(w: World, m: seq<Word>, live: set<int>, rem: seq<int>)
      requires OnlyMarks(w, m, live) && forall a :: a in rem ==> a in w.len && 0 <= a < |w.m|
      ensures forall a :: a in rem ==> 0 <= a < |m| && m[a].Head? && (m[a].mark <==> a in live)
    {
    }
  }
}
