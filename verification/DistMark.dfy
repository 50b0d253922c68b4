/** Marking for the distributed collection (vm/distgc.c). */
module DistributedMarking {
  const NIL: int := -1
  const NOOID: int := -2

  /** A local object or a stub: whether the object is here, its identifier if it
      has one, whether it is in the heap (a process state is not), its type, and
      what its fields refer to. */
  datatype Obj = Obj(resident: bool, oid: int, malloced: bool, ct: int, refs: seq<int>)

  /** What is marked when an object is scanned: its type, and if it is here, what
      its fields refer to.  States are never scanned. */
  function Scans(o: Obj): seq<int> {
    if !o.malloced then [] else if o.resident then [o.ct] + o.refs else [o.ct]
  }

  ghost predicate GoodHeap(heap: map<int, Obj>) {
    NIL !in heap && forall a, r :: a in heap && r in Scans(heap[a]) ==> r == NIL || r in heap
  }

  /** The first `n` of some references are to things in `x`. */
  ghost predicate AllIn(refs: seq<int>, n: int, x: set<int>) {
    forall i :: 0 <= i < n && i < |refs| && refs[i] != NIL ==> refs[i] in x
  }

  ghost predicate ScannedIn(heap: map<int, Obj>, a: int, x: set<int>) {
    a in heap ==> AllIn(Scans(heap[a]), |Scans(heap[a])|, x)
  }

  /** `x` is closed under what scanning finds. */
  ghost predicate Closed(heap: map<int, Obj>, x: set<int>) {
    forall a :: a in x ==> ScannedIn(heap, a, x)
  }

  /** Marked objects that are elsewhere and have an identifier. */
  ghost function GreyOf(heap: map<int, Obj>, marked: set<int>): set<int> {
    set a | a in marked && a in heap && !heap[a].resident && heap[a].oid != NOOID
  }

  /** Whatever is closed and contains `from` contains `x`. */
  ghost predicate Minimal(heap: map<int, Obj>, from: set<int>, x: set<int>) {
    forall c: set<int> :: from <= c && Closed(heap, c) ==> x <= c
  }

  /** Reachable through resident objects from the roots. */
  ghost predicate Reachable(heap: map<int, Obj>, roots: set<int>, a: int) {
    forall c: set<int> :: roots <= c && Closed(heap, c) ==> a in c
  }

  lemma MinimalStep(heap: map<int, Obj>, from: set<int>, x: set<int>, a: int, r: int)
    requires Minimal(heap, from, x) && a in x && a in heap && r in Scans(heap[a]) && r != NIL
    ensures Minimal(heap, from, x + {r})
  {
    forall c: set<int> | from <= c && Closed(heap, c)
      ensures x + {r} <= c
    {
      assert x <= c && ScannedIn(heap, a, c);
      var i :| 0 <= i < |Scans(heap[a])| && Scans(heap[a])[i] == r;
    }
  }

  lemma MinimalRoot(heap: map<int, Obj>, from: set<int>, x: set<int>, r: int)
    requires Minimal(heap, from, x)
    ensures Minimal(heap, from + {r}, x + {r})
  {
    forall c: set<int> | from + {r} <= c && Closed(heap, c)
      ensures x + {r} <= c
    {
      assert from <= c && x <= c && r in c;
    }
  }

  lemma MinimalSame(heap: map<int, Obj>, x: set<int>)
    ensures Minimal(heap, x, x)
  {
  }

  /** A closed set that is minimal is what is reachable. */
  lemma MinimalReachable(heap: map<int, Obj>, roots: set<int>, x: set<int>)
    requires Minimal(heap, roots, x) && roots <= x && Closed(heap, x)
    ensures forall a :: a in x <==> Reachable(heap, roots, a)
  {
    forall a
      ensures a in x <==> Reachable(heap, roots, a)
    {
      if a in x {
        forall c: set<int> | roots <= c && Closed(heap, c)
          ensures a in c
        {
          assert x <= c;
        }
      }
    }
  }

  /** Object `b`, if it is in the heap, refers to `a`: by its type, or, if it is
      here, by a field. */
  ghost predicate RefersTo(heap: map<int, Obj>, b: int, a: int) {
    b in heap && heap[b].malloced && (heap[b].ct == a || (heap[b].resident && a in heap[b].refs))
  }

  /** Whatever a marked object of the heap refers to is marked: its type, and if
      it is here, what its fields refer to; and what is marked without being in
      `from` is what another marked object refers to. */
  ghost predicate Traced(heap: map<int, Obj>, marked: set<int>, from: set<int>) {
    && from <= marked
    && (forall a :: a in marked && a in heap && heap[a].malloced && heap[a].ct != NIL ==> heap[a].ct in marked)
    && (forall a, r :: a in marked && a in heap && heap[a].malloced && heap[a].resident && r in heap[a].refs && r != NIL ==> r in marked)
    && (forall a :: a in marked && a !in from ==> exists b :: b in marked && b != a && RefersTo(heap, b, a))
  }

  /** Object by object. */
  lemma TracedMeans(heap: map<int, Obj>, marked: set<int>, from: set<int>, a: int) returns (b: int)
    requires Traced(heap, marked, from) && a in marked
    ensures from <= marked
    ensures a in heap && heap[a].malloced && heap[a].ct != -1 ==> heap[a].ct in marked
    ensures a in heap && heap[a].malloced && heap[a].resident ==> forall r :: r in heap[a].refs && r != -1 ==> r in marked
    ensures a !in from ==> b in marked && b != a && b in heap && heap[b].malloced
    ensures a !in from ==> heap[b].ct == a || (heap[b].resident && a in heap[b].refs)
  {
    b := a;
    if a !in from {
      b :| b in marked && b != a && RefersTo(heap, b, a);
    }
  }

  lemma ClosedMeans(heap: map<int, Obj>, x: set<int>)
    ensures Closed(heap, x) <==> forall a, b :: a in x && b != NIL && RefersTo(heap, a, b) ==> b in x
  {
    forall a | a in x && forall b :: b != NIL && RefersTo(heap, a, b) ==> b in x
      ensures ScannedIn(heap, a, x)
    {
      if a in heap {
        var refs := Scans(heap[a]);
        forall i | 0 <= i < |refs| && refs[i] != NIL
          ensures refs[i] in x
        {
          assert RefersTo(heap, a, refs[i]);
        }
      }
    }
    forall a, b | Closed(heap, x) && a in x && b != NIL && RefersTo(heap, a, b)
      ensures b in x
    {
      assert ScannedIn(heap, a, x);
      assert b in Scans(heap[a]);
      var i :| 0 <= i < |Scans(heap[a])| && Scans(heap[a])[i] == b;
    }
  }

  lemma AllTraced(heap: map<int, Obj>, from: set<int>, x: set<int>)
    requires Minimal(heap, from, x) && from <= x && Closed(heap, x) && NIL !in x
    ensures Traced(heap, x, from)
  {
    ClosedMeans(heap, x);
    forall a | a in x && a in heap && heap[a].malloced && heap[a].ct != NIL
      ensures heap[a].ct in x
    {
      assert RefersTo(heap, a, heap[a].ct);
    }
    forall a, r | a in x && a in heap && heap[a].malloced && heap[a].resident && r in heap[a].refs && r != NIL
      ensures r in x
    {
      assert RefersTo(heap, a, r);
    }
    forall a | a in x && a !in from
      ensures exists b :: b in x && b != a && RefersTo(heap, b, a)
    {
      var less := x - {a};
      assert from <= less && a !in less;
      if forall b :: b in x && b != a ==> !RefersTo(heap, b, a) {
        ClosedMeans(heap, less);
        assert false;
      }
    }
  }

  datatype Stage = Working | Terminating | Done

  class Marker {
    var heap: map<int, Obj>
    var marked: set<int>            // the DISTGC bits
    var remoteGreys: set<int>
    var interestingBlacks: set<int>
    var stack: seq<int>
    var stage: Stage
    var seenGrey: nat
    var current: nat                // distGCSeq
    var completed: nat              // lastCompletedDistGCSeq

    constructor (heap: map<int, Obj>)
      requires GoodHeap(heap)
      ensures this.heap == heap && !InDistGC() && stack == [] && GoodHeap(this.heap)
    {
      this.heap, marked, remoteGreys, interestingBlacks, stack := heap, {}, {}, {}, [];
      stage, seenGrey, current, completed := Done, 0, 0, 0;
    }

    predicate InDistGC()
      reads this
    {
      current != completed
    }

    /** Marked objects have been scanned, but for those waiting and the first
        `open` excepted. */
    ghost predicate Marking(open: set<int>)
      reads this
    {
      && GoodHeap(heap) && marked <= heap.Keys
      && (forall i :: 0 <= i < |stack| ==> stack[i] in marked)
      && (forall a :: a in marked && a !in stack && a !in open ==> ScannedIn(heap, a, marked))
    }

    /** Between steps everything marked has been scanned. */
    ghost predicate Valid()
      reads this
    {
      Marking({}) && stack == [] && remoteGreys <= GreyOf(heap, marked)
    }

    /** What marking does to the grey set: the newly marked objects that are
        elsewhere and have an identifier join it. */
    twostate predicate Spreads()
      reads this
    {
      && heap == old(heap) && old(marked) <= marked
      && remoteGreys == old(remoteGreys) + GreyOf(heap, marked - old(marked))
      && interestingBlacks == old(interestingBlacks) && current == old(current) && completed == old(completed)
    }

    /** newGrey. */
    method NewGrey(p: int)
      modifies this`remoteGreys, this`seenGrey, this`stage
      ensures remoteGreys == old(remoteGreys) + {p} && seenGrey == old(seenGrey) + 1 && stage != Terminating
    {
      remoteGreys := remoteGreys + {p};
      seenGrey := seenGrey + 1;
      if stage == Terminating {
        stage := Working;
      }
    }

    /** dgcMark. */
    method Mark(p: int, ghost open: set<int>)
      requires Marking(open) && (p == NIL || p in heap)
      modifies this`marked, this`stack, this`remoteGreys, this`seenGrey, this`stage
      ensures Marking(open) && Spreads() && (p != NIL ==> p in marked)
      ensures marked == old(marked) || (p != NIL && marked == old(marked) + {p})
      ensures marked == old(marked) ==> stack == old(stack)
    {
      if p == NIL || p in marked {
        GreyNone(heap, marked);
        return;
      }
      ghost var before := marked;
      marked := marked + {p};
      GreyOne(heap, before, p);
      if !heap[p].resident && heap[p].oid != NOOID {
        NewGrey(p);
      }
      if heap[p].malloced {
        stack := stack + [p];
      }
      MarkedMore(heap, before, marked);
    }

    static lemma GreyNone(heap: map<int, Obj>, marked: set<int>)
      ensures GreyOf(heap, marked - marked) == {}
    {
    }

    static lemma GreyOne(heap: map<int, Obj>, marked: set<int>, p: int)
      requires p in heap && p !in marked
      ensures GreyOf(heap, marked + {p} - marked) == if !heap[p].resident && heap[p].oid != NOOID then {p} else {}
    {
    }

    static lemma GreyTrans(heap: map<int, Obj>, a: set<int>, b: set<int>, c: set<int>)
      requires a <= b <= c
      ensures GreyOf(heap, b - a) + GreyOf(heap, c - b) == GreyOf(heap, c - a)
    {
    }

    static lemma MarkedMore(heap: map<int, Obj>, x: set<int>, y: set<int>)
      requires x <= y
      ensures forall a :: ScannedIn(heap, a, x) ==> ScannedIn(heap, a, y)
    {
    }

    /** dgcMarkFields: an object off the stack is scanned. */
    method MarkFields(p: int, ghost from: set<int>)
      requires Marking({p}) && p in marked && Minimal(heap, from, marked)
      modifies this`marked, this`stack, this`remoteGreys, this`seenGrey, this`stage
      ensures Marking({}) && Spreads() && Minimal(heap, from, marked)
      ensures marked == old(marked) ==> stack == old(stack)
    {
      hide GoodHeap, Minimal, ScannedIn, AllIn, GreyOf, Scans;
      var refs, i := Scans(heap[p]), 0;
      ghost var marked0 := marked;
      GreyNone(heap, marked);
      NoneIn(refs, marked);
      while i < |refs|
        invariant 0 <= i <= |refs| && heap == old(heap) && p in marked && Marking({p}) && Spreads() && Minimal(heap, from, marked)
        invariant AllIn(refs, i, marked) && (marked == old(marked) ==> stack == old(stack))
      {
        ghost var before := marked;
        RefGood(heap, p, i);
        Mark(refs[i], {p});
        GreyTrans(heap, marked0, before, marked);
        if refs[i] != NIL {
          MinimalStep(heap, from, before, p, refs[i]);
        }
        MinimalEither(heap, from, before, marked, refs[i]);
        NextIn(refs, i, before, marked);
        i := i + 1;
      }
      ScannedNow(heap, p, marked);
    }

    static lemma NoneIn(refs: seq<int>, x: set<int>)
      ensures AllIn(refs, 0, x)
    {
    }

    static lemma NextIn(refs: seq<int>, i: int, x: set<int>, y: set<int>)
      requires AllIn(refs, i, x) && x <= y && 0 <= i < |refs| && (refs[i] != NIL ==> refs[i] in y)
      ensures AllIn(refs, i + 1, y)
    {
    }

    static lemma RefGood(heap: map<int, Obj>, p: int, i: int)
      requires GoodHeap(heap) && p in heap && 0 <= i < |Scans(heap[p])|
      ensures Scans(heap[p])[i] == NIL || Scans(heap[p])[i] in heap
      ensures Scans(heap[p])[i] in Scans(heap[p])
    {
    }

    static lemma MinimalEither(heap: map<int, Obj>, from: set<int>, x: set<int>, y: set<int>, r: int)
      requires Minimal(heap, from, x) && (r != NIL ==> Minimal(heap, from, x + {r})) && (y == x || (y == x + {r} && r != NIL))
      ensures Minimal(heap, from, y)
    {
    }

    static lemma ScannedNow(heap: map<int, Obj>, p: int, x: set<int>)
      requires p in heap && AllIn(Scans(heap[p]), |Scans(heap[p])|, x)
      ensures ScannedIn(heap, p, x)
    {
    }

    /** dgcFlush. */
    method Flush(ghost from: set<int>)
      requires Marking({}) && Minimal(heap, from, marked)
      modifies this`marked, this`stack, this`remoteGreys, this`seenGrey, this`stage
      ensures Marking({}) && stack == [] && Spreads() && Minimal(heap, from, marked)
    {
      hide GoodHeap, Minimal, ScannedIn, GreyOf;
      ghost var marked0 := marked;
      GreyNone(heap, marked);
      while stack != []
        invariant heap == old(heap) && Marking({}) && Spreads() && Minimal(heap, from, marked)
        decreases heap.Keys - marked, |stack|
      {
        ghost var before := marked;
        var p := stack[|stack| - 1];
        assert stack == stack[..|stack| - 1] + [p];
        stack := stack[..|stack| - 1];
        MarkFields(p, from);
        GreyTrans(heap, marked0, before, marked);
      }
    }

    /** dgcMarkOne: an object and everything behind it. */
    method MarkOne(p: int)
      requires Marking({}) && stack == [] && (p == NIL || p in heap)
      modifies this`marked, this`stack, this`remoteGreys, this`seenGrey, this`stage
      ensures Marking({}) && stack == [] && Spreads() && (p != NIL ==> p in marked)
      ensures Minimal(heap, if p == NIL then old(marked) else old(marked) + {p}, marked)
    {
      hide GoodHeap, Minimal, ScannedIn, GreyOf, Closed;
      ghost var marked0 := marked;
      MinimalSame(heap, marked0);
      MinimalRoot(heap, marked0, marked0, p);
      Mark(p, {});
      ghost var before, from := marked, if p == NIL then marked0 else marked0 + {p};
      MinimalWider(heap, marked0, from, before, p);
      Flush(from);
      GreyTrans(heap, marked0, before, marked);
    }

    static lemma MinimalWider(heap: map<int, Obj>, x: set<int>, from: set<int>, y: set<int>, p: int)
      requires Minimal(heap, x, x) && Minimal(heap, x + {p}, x + {p})
      requires from == (if p == NIL then x else x + {p}) && (y == x || (y == x + {p} && p != NIL))
      ensures Minimal(heap, from, y)
    {
    }

    /** startDistGC: the marked objects are exactly those reachable from the roots
        through resident objects, and the grey ones exactly the marked objects
        that are elsewhere and have an identifier. */
    method StartDistGC(roots: seq<int>)
      requires GoodHeap(heap) && !InDistGC() && stack == [] && forall i :: 0 <= i < |roots| ==> roots[i] == NIL || roots[i] in heap
      modifies this
      ensures Valid() && InDistGC() && heap == old(heap) && interestingBlacks == {}
      ensures forall a :: a in marked <==> Reachable(heap, RootSet(roots, |roots|), a)
      ensures remoteGreys == GreyOf(heap, marked)
      ensures forall a :: a in remoteGreys <==> a in marked && a in heap && !heap[a].resident && heap[a].oid != NOOID
      ensures Traced(heap, marked, set i | 0 <= i < |roots| && roots[i] != NIL :: roots[i])
    {
      hide GoodHeap, Minimal, ScannedIn, GreyOf, Closed, Reachable, RootSet;
      remoteGreys, interestingBlacks := {}, {};
      stage, seenGrey := Working, 1;
      current := current + 1;
      marked := {};
      var i := 0;
      RootsNone(roots);
      GreyNothing(heap);
      MinimalSame(heap, {});
      while i < |roots|
        invariant 0 <= i <= |roots| && heap == old(heap) && Marking({}) && stack == [] && interestingBlacks == {}
        invariant remoteGreys == GreyOf(heap, marked) && Minimal(heap, RootSet(roots, i), marked) && RootSet(roots, i) <= marked
        invariant current == old(current) + 1 && completed == old(completed)
      {
        ghost var before := marked;
        MarkOne(roots[i]);
        RootsNext(roots, i);
        GreyTrans(heap, {}, before, marked);
        GreyAll(heap, before, marked);
        MinimalRoots(heap, RootSet(roots, i), before, marked, roots[i]);
        i := i + 1;
      }
      AllScanned(heap, marked);
      MinimalReachable(heap, RootSet(roots, |roots|), marked);
      MarkedNotNil();
      AllTraced(heap, RootSet(roots, |roots|), marked);
      RootsAll(roots);
      GreyMeans(heap, marked);
    }

    lemma MarkedNotNil()
      requires Marking({})
      ensures NIL !in marked
    {
    }

    static lemma RootsAll(roots: seq<int>)
      ensures RootSet(roots, |roots|) == set i | 0 <= i < |roots| && roots[i] != NIL :: roots[i]
    {
    }

    static lemma GreyMeans(heap: map<int, Obj>, marked: set<int>)
      ensures forall a :: a in GreyOf(heap, marked) <==> a in marked && a in heap && !heap[a].resident && heap[a].oid != NOOID
    {
    }

    static ghost function RootSet(roots: seq<int>, n: int): set<int> {
      set i | 0 <= i < n && i < |roots| && roots[i] != NIL :: roots[i]
    }

    static lemma RootsNone(roots: seq<int>)
      ensures RootSet(roots, 0) == {}
    {
    }

    static lemma RootsNext(roots: seq<int>, i: int)
      requires 0 <= i < |roots|
      ensures RootSet(roots, i + 1) == if roots[i] == NIL then RootSet(roots, i) else RootSet(roots, i) + {roots[i]}
    {
    }

    static lemma GreyNothing(heap: map<int, Obj>)
      ensures GreyOf(heap, {}) == {}
    {
    }

    static lemma GreyAll(heap: map<int, Obj>, a: set<int>, b: set<int>)
      requires a <= b
      ensures GreyOf(heap, a) + GreyOf(heap, b - a) == GreyOf(heap, b)
    {
    }

    static lemma MinimalRoots(heap: map<int, Obj>, from: set<int>, x: set<int>, y: set<int>, r: int)
      requires Minimal(heap, from, x) && Minimal(heap, if r == NIL then x else x + {r}, y)
      ensures Minimal(heap, if r == NIL then from else from + {r}, y)
    {
      var from' := if r == NIL then from else from + {r};
      forall c: set<int> | from' <= c && Closed(heap, c)
        ensures y <= c
      {
        assert from <= c && x <= c;
      }
    }

    static lemma AllScanned(heap: map<int, Obj>, marked: set<int>)
      requires forall a :: a in marked ==> ScannedIn(heap, a, marked)
      ensures Closed(heap, marked)
    {
    }

    /** distGCBitToSend: a reference that leaves is marked; it is sent black
        unless its object is elsewhere and grey. */
    method BitToSend(o: int) returns (black: bool)
      requires (InDistGC() ==> Valid()) && o in heap
      modifies this`marked, this`stack, this`remoteGreys, this`seenGrey, this`stage
      ensures !InDistGC() ==> !black && marked == old(marked)
      ensures InDistGC() ==> Valid() && o in marked && Spreads() && (black <==> heap[o].resident || o !in remoteGreys)
      ensures InDistGC() ==> forall a :: a in marked <==> Reachable(heap, old(marked) + {o}, a)
      ensures InDistGC() ==> Traced(heap, marked, old(marked) + {o})
    {
      hide Minimal, ScannedIn, Reachable, Closed, Traced;
      ghost var marked0 := marked;
      if !InDistGC() {
        return false;
      }
      if o !in marked {
        ghost var before := marked;
        MarkOne(o);
        GreyStays(heap, before, marked);
      } else {
        GreyNone(heap, marked);
        MinimalSame(heap, marked);
        assert marked + {o} == marked;
      }
      AllScanned(heap, marked);
      NotNil(heap, o);
      MinimalReachable(heap, marked0 + {o}, marked);
      MarkedNotNil();
      AllTraced(heap, marked0 + {o}, marked);
      black := heap[o].resident || o !in remoteGreys;
    }

    static lemma NotNil(heap: map<int, Obj>, o: int)
      requires GoodHeap(heap) && o in heap
      ensures o != NIL
    {
    }

    static lemma GreyStays(heap: map<int, Obj>, a: set<int>, b: set<int>)
      requires a <= b
      ensures GreyOf(heap, a) <= GreyOf(heap, b) && GreyOf(heap, b - a) <= GreyOf(heap, b)
    {
    }

    /** An object arrives, with its fields; incomingObject marks it and everything
        behind it anew, and nothing else. */
    method IncomingObject(o: int, obj: Obj)
      requires Valid() && InDistGC() && o in heap && o != NIL && obj.resident && obj.malloced
      requires GoodHeap(heap[o := obj])
      modifies this
      ensures Valid() && heap == old(heap)[o := obj] && o in marked && old(marked) <= marked && o !in remoteGreys
      ensures remoteGreys == old(remoteGreys) - {o} + GreyOf(heap, marked - old(marked))
      ensures forall r :: r in obj.refs && r != NIL ==> r in marked
      ensures forall a :: a in marked <==> Reachable(heap, old(marked) + {o}, a)
      ensures Traced(heap, marked, old(marked) + {o})
    {
      hide GoodHeap, Minimal, GreyOf, Reachable, Closed, Traced;
      ghost var heap0, marked0 := heap, marked;
      heap := heap[o := obj];
      marked := marked - {o};
      ArrivedScanned(heap0, heap, marked0, o);
      MarkArrived(o);
      remoteGreys := remoteGreys - {o};
      ArrivedGreys(heap0, heap, marked0, marked, o);
      ArrivedRefs(heap, o, marked);
      AllScanned(heap, marked);
      assert marked0 - {o} + {o} == marked0 + {o};
      MinimalReachable(heap, marked0 + {o}, marked);
      MarkedNotNil();
      AllTraced(heap, marked0 + {o}, marked);
    }

    /** Everything but what refers to `o` is in order until `o` is marked again. */
    method MarkArrived(o: int)
      requires GoodHeap(heap) && o in heap && o !in marked && stack == [] && marked <= heap.Keys && heap[o].resident && heap[o].malloced
      requires forall a :: a in marked ==> ScannedIn(heap, a, marked + {o})
      modifies this`marked, this`stack, this`remoteGreys, this`seenGrey, this`stage
      ensures Marking({}) && stack == [] && o in marked && old(marked) <= marked && heap == old(heap)
      ensures remoteGreys == old(remoteGreys) + GreyOf(heap, marked - old(marked) - {o})
      ensures Minimal(heap, old(marked) + {o}, marked)
      ensures interestingBlacks == old(interestingBlacks) && current == old(current) && completed == old(completed)
    {
      hide GoodHeap, Minimal, ScannedIn, GreyOf;
      marked := marked + {o};
      stack := stack + [o];
      ghost var before := marked;
      MinimalSame(heap, marked);
      Flush(marked);
      assert marked - old(marked) - {o} == marked - before;
    }

    static lemma ArrivedScanned(heap0: map<int, Obj>, heap: map<int, Obj>, marked: set<int>, o: int)
      requires o in heap0 && o in heap && heap == heap0[o := heap[o]] && forall a :: a in marked ==> ScannedIn(heap0, a, marked)
      ensures forall a :: a in marked - {o} ==> ScannedIn(heap, a, marked - {o} + {o})
    {
      forall a | a in marked - {o}
        ensures ScannedIn(heap, a, marked - {o} + {o})
      {
        assert ScannedIn(heap0, a, marked);
      }
    }

    static lemma ArrivedGreys(heap0: map<int, Obj>, heap: map<int, Obj>, marked0: set<int>, marked: set<int>, o: int)
      requires o in heap0 && o in heap && heap == heap0[o := heap[o]] && heap[o].resident && marked0 - {o} <= marked
      ensures GreyOf(heap, marked - (marked0 - {o}) - {o}) == GreyOf(heap, marked - marked0)
      ensures o !in GreyOf(heap, marked - marked0) && GreyOf(heap, marked - marked0) <= GreyOf(heap, marked)
      ensures GreyOf(heap0, marked0) - {o} <= GreyOf(heap, marked)
    {
    }

    static lemma ArrivedRefs(heap: map<int, Obj>, o: int, marked: set<int>)
      requires o in heap && heap[o].resident && heap[o].malloced && ScannedIn(heap, o, marked)
      ensures forall r :: r in heap[o].refs && r != NIL ==> r in marked
    {
      forall r | r in heap[o].refs && r != NIL
        ensures r in marked
      {
        var i :| 0 <= i < |heap[o].refs| && heap[o].refs[i] == r;
        assert Scans(heap[o])[i + 1] == r;
      }
    }

    /** incomingRef: another node's view of one of our references. */
    method IncomingRef(o: int, black: bool)
      requires (InDistGC() ==> Valid()) && o in heap
      modifies this`marked, this`stack, this`remoteGreys, this`interestingBlacks, this`seenGrey, this`stage
      ensures !InDistGC() ==> marked == old(marked) && remoteGreys == old(remoteGreys) && interestingBlacks == old(interestingBlacks)
      ensures InDistGC() ==> Valid() && old(marked) <= marked && old(interestingBlacks) <= interestingBlacks
      ensures InDistGC() && heap[o].resident && (!black || o !in old(marked)) ==> o in marked && o in interestingBlacks
      ensures InDistGC() && !(heap[o].resident && (!black || o !in old(marked))) ==> interestingBlacks == old(interestingBlacks)
      ensures InDistGC() ==> interestingBlacks <= old(interestingBlacks) + {o}
      ensures InDistGC() && black && !heap[o].resident ==> remoteGreys == old(remoteGreys) - {o} && marked == old(marked)
      ensures InDistGC() && !black && !heap[o].resident ==> remoteGreys == old(remoteGreys) && marked == old(marked)
      ensures InDistGC() && heap[o].resident ==> remoteGreys == (if black && o in old(marked) then old(remoteGreys) - {o} else old(remoteGreys))
                                                               + GreyOf(heap, marked - old(marked))
      ensures InDistGC() ==> forall a :: a in marked <==> Reachable(heap, old(marked) + Behind(heap, o, black, old(marked)), a)
      ensures InDistGC() ==> Traced(heap, marked, old(marked) + (if heap[o].resident && (!black || o !in old(marked)) then {o} else {}))
    {
      hide Minimal, ScannedIn, GreyOf, Reachable, Closed, Traced;
      if !InDistGC() {
        return;
      }
      ghost var marked0, from := marked, marked + Behind(heap, o, black, marked);
      MinimalSame(heap, marked);
      GreyNone(heap, marked);
      NotNil(heap, o);
      var bit := black && !(heap[o].resident && o !in marked);
      if !bit {
        if heap[o].resident {
          interestingBlacks := interestingBlacks + {o};
          if o !in marked {
            ghost var before := marked;
            MarkOne(o);
            GreyStays(heap, before, marked);
          }
        }
      } else if o in remoteGreys {
        remoteGreys := remoteGreys - {o};
      }
      assert marked0 + {o} == (if o in marked0 then marked0 else marked0 + {o});
      AllScanned(heap, marked);
      MinimalReachable(heap, from, marked);
      MarkedNotNil();
      AllTraced(heap, from, marked);
    }

    /** What a report about `o` adds to what is to be marked. */
    static ghost function Behind(heap: map<int, Obj>, o: int, black: bool, marked: set<int>): set<int> {
      if o in heap && heap[o].resident && (!black || o !in marked) then {o} else {}
    }
  }
}
