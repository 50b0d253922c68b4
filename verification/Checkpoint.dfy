/** The checkpoint writer of vm/write.c, in "do everything" mode. */
module CheckpointWriter {
  import opened CheckpointFormat

  /** What the writer knows of types: their templates, and which of them have
      references for data. */
  datatype Types = Types(template: map<int, seq<Field>>, odp: set<int>)

  function TemplateOf(ty: Types, ct: int): seq<Field> {
    if ct in ty.template then ty.template[ct] else []
  }

  /** The kinds of an object's words. */
  function KindsOf(ty: Types, o: Obj): seq<Kind> {
    var l := Layout(TemplateOf(ty, o.ct), o.words);
    if l.Some? then l.value else []
  }

  ghost predicate FitsTemplate(ty: Types, o: Obj) {
    Layout(TemplateOf(ty, o.ct), o.words).Some?
  }

  /** A variable without a type has no datum. */
  ghost predicate VariablesSound(ks: seq<Kind>, ws: seq<int>) {
    |ws| == |ks| && forall i :: 1 <= i < |ks| && ks[i] == VarType && ws[i] == NIL ==> ws[i - 1] == NIL
  }

  ghost predicate GoodObject(ty: Types, heap: map<int, Obj>, a: int) {
    && a in heap && a != NIL && heap[a].ct in heap && FitsTemplate(ty, heap[a])
    && RefsIn(KindsOf(ty, heap[a]), heap[a].words, ty.odp, heap.Keys)
    && VariablesSound(KindsOf(ty, heap[a]), heap[a].words)
  }

  ghost predicate GoodHeap(ty: Types, heap: map<int, Obj>) {
    forall a :: a in heap ==> GoodObject(ty, heap, a)
  }

  // ----- the worklist -----

  ghost predicate NoDup(s: seq<int>) {
    forall i, j :: 0 <= i < j < |s| ==> s[i] != s[j]
  }

  /** The map gives the position of every object on the worklist. */
  ghost predicate Listed(heap: map<int, Obj>, todo: seq<int>, index: map<int, int>) {
    && NoDup(todo) && (forall k :: 0 <= k < |todo| ==> todo[k] in index && index[todo[k]] == k && todo[k] in heap && todo[k] != NIL)
    && (forall a :: a in index ==> 0 <= index[a] < |todo| && todo[index[a]] == a)
  }

  /** What the first `n` words refer to is on the worklist. */
  ghost predicate WordsListed(ks: seq<Kind>, ws: seq<int>, odp: set<int>, n: int, index: map<int, int>) {
    |ws| == |ks| && forall i :: 0 <= i < n && i < |ks| && IsRef(ks, ws, odp, i) ==> ws[i] == NIL || ws[i] in index
  }

  /** So is everything an object that has been traversed refers to. */
  ghost predicate Done(ty: Types, o: Obj, index: map<int, int>) {
    o.builtin || (o.ct in index
                  && (o.resident ==> WordsListed(KindsOf(ty, o), o.words, ty.odp, |o.words|, index)))
  }

  /** `x` contains what object `o`, as it is before traversal, refers to. */
  ghost predicate Holds(ty: Types, o: Obj, x: set<int>) {
    o.builtin || (o.ct in x && (o.resident ==> RefsIn(KindsOf(ty, o), o.words, ty.odp, x)))
  }

  /** Word by word: besides the type, what is there for a reference or a type,
      and for the datum of a variable if its type has references for data, or it
      has no type. */
  lemma HoldsMeans(ty: Types, o: Obj, x: set<int>, i: nat)
    requires Holds(ty, o, x) && FitsTemplate(ty, o) && !o.builtin
    ensures o.ct in x && |KindsOf(ty, o)| == |o.words|
    ensures o.resident && i < |o.words| && o.words[i] != -1 && KindsOf(ty, o)[i] in {Pointer, VarType} ==> o.words[i] in x
    ensures o.resident && i + 1 < |o.words| && o.words[i] != -1 && KindsOf(ty, o)[i] == VarData && (o.words[i + 1] == -1 || o.words[i + 1] in ty.odp)
            ==> o.words[i] in x
  {
    hide Layout;
    assert i < |o.words| && o.resident ==> IsRef(KindsOf(ty, o), o.words, ty.odp, i) ==> o.words[i] == NIL || o.words[i] in x;
  }

  /** And if anything is missing, it is one of these. */
  lemma HoldsUnless(ty: Types, o: Obj, x: set<int>) returns (i: nat)
    requires !Holds(ty, o, x) && FitsTemplate(ty, o)
    ensures !o.builtin && |KindsOf(ty, o)| == |o.words|
    ensures o.ct in x ==> o.resident && i < |o.words| && o.words[i] != -1 && o.words[i] !in x
    ensures o.ct in x && KindsOf(ty, o)[i] !in {Pointer, VarType}
            ==> KindsOf(ty, o)[i] == VarData && i + 1 < |o.words| && (o.words[i + 1] == -1 || o.words[i + 1] in ty.odp)
  {
    hide Layout;
    i := 0;
    var ks := KindsOf(ty, o);
    if o.ct in x {
      var j :| 0 <= j < |ks| && IsRef(ks, o.words, ty.odp, j) && o.words[j] != NIL && o.words[j] !in x;
      i := j;
    }
  }

  /** `after` has nothing beyond `before` but what `o` refers to. */
  ghost predicate NoMore(ty: Types, o: Obj, before: set<int>, after: set<int>) {
    forall x: set<int> :: before <= x && Holds(ty, o, x) ==> after <= x
  }

  /** `x` is closed under references. */
  ghost predicate ClosedSet(ty: Types, heap: map<int, Obj>, x: set<int>) {
    forall a :: a in x && a in heap ==> Holds(ty, heap[a], x)
  }

  /** Reachable from `o`: in every closed set that contains `o`. */
  ghost predicate Reachable(ty: Types, heap: map<int, Obj>, o: int, a: int) {
    forall x: set<int> :: o in x && ClosedSet(ty, heap, x) ==> a in x
  }

  /** Everything in `found` is reachable from `o`. */
  ghost predicate OnlyReachable(ty: Types, heap: map<int, Obj>, o: int, found: set<int>) {
    forall x: set<int> :: o in x && ClosedSet(ty, heap, x) ==> found <= x
  }

  /** What a reachable object refers to is reachable. */
  lemma ReachableMore(ty: Types, heap: map<int, Obj>, o: int, a: int, before: set<int>, after: set<int>)
    requires OnlyReachable(ty, heap, o, before) && a in before && a in heap && NoMore(ty, heap[a], before, after)
    ensures OnlyReachable(ty, heap, o, after)
  {
    hide Holds;
    forall x: set<int> | o in x && ClosedSet(ty, heap, x)
      ensures after <= x
    {
      assert before <= x && a in x;
      assert Holds(ty, heap[a], x);
    }
  }

  lemma ReachableStart(ty: Types, heap: map<int, Obj>, o: int)
    ensures OnlyReachable(ty, heap, o, {o})
  {
  }

  /** When everything found has been traversed, it is just what is reachable. */
  lemma ExactlyReachable(ty: Types, heap: map<int, Obj>, o: int, found: set<int>)
    requires OnlyReachable(ty, heap, o, found) && o in found && ClosedSet(ty, heap, found)
    ensures forall a :: a in found <==> Reachable(ty, heap, o, a)
  {
    hide ClosedSet;
  }

  lemma HoldsMore(ty: Types, o: Obj, x: set<int>, x': set<int>)
    requires Holds(ty, o, x) && x <= x'
    ensures Holds(ty, o, x')
  {
  }

  /** The object after traversal. */
  function Normalised(ty: Types, o: Obj): Obj {
    if o.builtin || !o.resident || |KindsOf(ty, o)| != |o.words| then o else o.(words := Normal(KindsOf(ty, o), o.words, ty.odp))
  }

  /** The only words that traversal changes are types, of references, of
      variables without a datum. */
  lemma NormalisedMeans(ty: Types, o: Obj, i: nat)
    requires FitsTemplate(ty, o) && i < |o.words|
    ensures |KindsOf(ty, o)| == |o.words| == |Normalised(ty, o).words|
    ensures var dropped := !o.builtin && o.resident && i > 0 && KindsOf(ty, o)[i] == VarType && o.words[i] in ty.odp && o.words[i - 1] == -1;
            Normalised(ty, o).words[i] == if dropped then -1 else o.words[i]
    ensures Normalised(ty, o) == o.(words := Normalised(ty, o).words)
  {
    hide Layout;
  }

  lemma NormalisedSame(ty: Types, heap: map<int, Obj>, a: int)
    requires GoodObject(ty, heap, a)
    ensures KindsOf(ty, Normalised(ty, heap[a])) == KindsOf(ty, heap[a]) && FitsTemplate(ty, Normalised(ty, heap[a]))
    ensures |KindsOf(ty, heap[a])| == |heap[a].words| && Normalised(ty, heap[a]).ct == heap[a].ct
  {
    NormalPlain(KindsOf(ty, heap[a]), heap[a].words, ty.odp);
    LayoutSame(TemplateOf(ty, heap[a].ct), heap[a].words, Normal(KindsOf(ty, heap[a]), heap[a].words, ty.odp));
  }

  lemma NormalisedGood(ty: Types, heap: map<int, Obj>, a: int)
    requires GoodHeap(ty, heap) && a in heap
    ensures GoodHeap(ty, heap[a := Normalised(ty, heap[a])])
  {
    var heap' := heap[a := Normalised(ty, heap[a])];
    assert heap'.Keys == heap.Keys;
    hide Normalised, GoodObject;
    forall b | b in heap'
      ensures GoodObject(ty, heap', b)
    {
      assert GoodObject(ty, heap, b);
      if b == a {
        NormalisedObject(ty, heap, heap', a);
      } else {
        OtherObject(ty, heap, heap', b);
      }
    }
  }

  lemma OtherObject(ty: Types, heap: map<int, Obj>, heap': map<int, Obj>, b: int)
    requires GoodObject(ty, heap, b) && heap'.Keys == heap.Keys && b in heap' && heap'[b] == heap[b]
    ensures GoodObject(ty, heap', b)
  {
    assert heap[b].ct in heap.Keys;
  }

  lemma NormalisedObject(ty: Types, heap: map<int, Obj>, heap': map<int, Obj>, a: int)
    requires GoodObject(ty, heap, a) && heap'.Keys == heap.Keys && a in heap' && heap'[a] == Normalised(ty, heap[a])
    ensures GoodObject(ty, heap', a)
  {
    hide Layout;
    NormalisedSame(ty, heap, a);
    LayoutPaired(TemplateOf(ty, heap[a].ct), heap[a].words);
    NormalGood(KindsOf(ty, heap[a]), heap[a].words, ty.odp, heap.Keys);
    assert heap[a].ct in heap.Keys;
  }

  lemma NormalGood(ks: seq<Kind>, ws: seq<int>, odp: set<int>, known: set<int>)
    requires Paired(ks) && RefsIn(ks, ws, odp, known) && VariablesSound(ks, ws)
    ensures RefsIn(ks, Normal(ks, ws, odp), odp, known) && VariablesSound(ks, Normal(ks, ws, odp))
  {
    var n := Normal(ks, ws, odp);
    forall i | 0 <= i < |ks| && IsRef(ks, n, odp, i)
      ensures n[i] == NIL || n[i] in known
    {
      if ks[i] == VarData {
        assert ks[i + 1] == VarType;
        assert IsRef(ks, ws, odp, i);
      }
    }
  }

  /** What is listed stays listed. */
  lemma DoneMore(ty: Types, o: Obj, index: map<int, int>, index': map<int, int>)
    requires Done(ty, o, index) && forall a :: a in index ==> a in index'
    ensures Done(ty, o, index')
  {
  }

  /** The stream position of every object on a worklist of `n`. */
  function Positions(index: map<int, int>, n: int): map<int, int> {
    map a | a in index :: n - 1 - index[a]
  }

  /** The record of an object. */
  function RecordOf(ty: Types, at: map<int, int>, o: Obj): Record {
    var ct := if o.ct in at then at[o.ct] else 0;
    if o.builtin then External(o.oid)
    else if !o.resident then StubOf(o.oid, |o.words|, ct, o.srv)
    else if |KindsOf(ty, o)| != |o.words| then Whole(o.oid, ct, o.words)
    else Whole(o.oid, ct, Replace(KindsOf(ty, o), o.words, ty.odp, at))
  }

  /** The records of the last `m` objects on the worklist, last first. */
  ghost predicate RecordsAre(rs: seq<Record>, ty: Types, heap: map<int, Obj>, todo: seq<int>, index: map<int, int>, m: nat) {
    && |rs| == m <= |todo|
    && (forall j :: 0 <= j < m ==> FromEnd(todo, j) in heap
                                   && rs[j] == RecordOf(ty, Positions(index, |todo|), heap[FromEnd(todo, j)]))
  }

  function FromEnd(todo: seq<int>, j: nat): int
    requires j < |todo|
  {
    todo[|todo| - 1 - j]
  }

  lemma RecordsMore(rs: seq<Record>, ty: Types, heap: map<int, Obj>, todo: seq<int>, index: map<int, int>, m: nat)
    requires RecordsAre(rs, ty, heap, todo, index, m) && m < |todo| && FromEnd(todo, m) in heap
    ensures RecordsAre(rs + [RecordOf(ty, Positions(index, |todo|), heap[FromEnd(todo, m)])], ty, heap, todo, index, m + 1)
  {
    hide RecordOf, Positions;
  }

  /** Everything on the worklist has been traversed. */
  ghost predicate Closed(ty: Types, heap: map<int, Obj>, todo: seq<int>, index: map<int, int>) {
    forall k :: 0 <= k < |todo| ==> todo[k] in heap && Done(ty, heap[todo[k]], index) && NoEmpty(ty, heap[todo[k]])
  }

  /** No variable whose data are references has a type but no datum. */
  ghost predicate NoEmpty(ty: Types, o: Obj) {
    !o.builtin && o.resident ==>
      var ks := KindsOf(ty, o);
      && |ks| == |o.words|
      && forall i :: 1 <= i < |ks| && ks[i] == VarType && o.words[i] != NIL && o.words[i] in ty.odp ==> o.words[i - 1] != NIL
  }

  lemma NormalisedNoEmpty(ty: Types, heap: map<int, Obj>, a: int)
    requires GoodObject(ty, heap, a)
    ensures NoEmpty(ty, Normalised(ty, heap[a]))
  {
    hide Layout;
    NormalisedSame(ty, heap, a);
    LayoutPaired(TemplateOf(ty, heap[a].ct), heap[a].words);
  }

  /** What is in the record of an object that is builtin, or elsewhere. */
  lemma OtherWritten(ty: Types, heap: map<int, Obj>, todo: seq<int>, index: map<int, int>, rs: seq<Record>, a: int)
    requires GoodHeap(ty, heap) && Listed(heap, todo, index) && Closed(ty, heap, todo, index) && RecordsAre(rs, ty, heap, todo, index, |todo|)
    requires a in index && a in heap
    ensures 0 <= |todo| - 1 - index[a] < |rs| == |todo|
    ensures heap[a].builtin ==> rs[|todo| - 1 - index[a]] == External(heap[a].oid)
    ensures !heap[a].builtin ==> heap[a].ct in index
    ensures !heap[a].builtin && !heap[a].resident ==>
              rs[|todo| - 1 - index[a]] == StubOf(heap[a].oid, |heap[a].words|, |todo| - 1 - index[heap[a].ct], heap[a].srv)
  {
    hide Layout, NoEmpty;
    assert todo[index[a]] == a && FromEnd(todo, |todo| - 1 - index[a]) == a;
    assert Done(ty, heap[a], index);
  }

  /** What is on the worklist and in the record for the word at `k` of an object:
      plain words as they are; for references, and for data of variables whose
      type has them for data, the object is on the worklist and its position is
      in the record, counted from the end. */
  lemma WordWritten(ty: Types, heap: map<int, Obj>, todo: seq<int>, index: map<int, int>, rs: seq<Record>, a: int, k: int)
    requires GoodHeap(ty, heap) && Listed(heap, todo, index) && Closed(ty, heap, todo, index) && RecordsAre(rs, ty, heap, todo, index, |todo|)
    requires a in index && a in heap && !heap[a].builtin && heap[a].resident && 0 <= k < |heap[a].words|
    ensures |KindsOf(ty, heap[a])| == |heap[a].words| && heap[a].ct in index && 0 <= |todo| - 1 - index[a] < |rs|
    ensures var ks, ws, r := KindsOf(ty, heap[a]), heap[a].words, rs[|todo| - 1 - index[a]];
            && r.Whole? && r.oid == heap[a].oid && r.ct == |todo| - 1 - index[heap[a].ct] && |r.words| == |ws|
            && (ks[k] == Plain ==> r.words[k] == ws[k])
            && (ks[k] == Pointer || ks[k] == VarType ==>
                  if ws[k] == NIL then r.words[k] == NIL else ws[k] in index && r.words[k] == |todo| - 1 - index[ws[k]])
            && (ks[k] == VarData ==> k + 1 < |ws| && ks[k + 1] == VarType)
            && (ks[k] == VarData ==>
                  if ws[k] == NIL then r.words[k] == NIL
                  else if ws[k + 1] in ty.odp then ws[k] in index && r.words[k] == |todo| - 1 - index[ws[k]]
                  else r.words[k] == ws[k])
  {
    hide Layout, NoEmpty;
    assert todo[index[a]] == a && FromEnd(todo, |todo| - 1 - index[a]) == a;
    assert Done(ty, heap[a], index) && GoodObject(ty, heap, a);
    NormalisedSame(ty, heap, a);
    LayoutPaired(TemplateOf(ty, heap[a].ct), heap[a].words);
    hide GoodHeap, Listed, Closed, RecordsAre, GoodObject;
  }

  class Writer {
    const types: Types
    var heap: map<int, Obj>
    var todo: seq<int>
    var index: map<int, int>
    var stream: seq<Token>

    constructor (types: Types, heap: map<int, Obj>)
      ensures this.types == types && this.heap == heap && todo == [] && index == map[] && stream == []
    {
      this.types, this.heap, todo, index, stream := types, heap, [], map[], [];
    }

    ghost predicate Valid()
      reads this
    {
      GoodHeap(types, heap) && Listed(heap, todo, index)
    }

    /** What finding objects may change: the worklist grows. */
    twostate predicate Grown()
      reads this
    {
      |old(todo)| <= |todo| && todo[..|old(todo)|] == old(todo) && forall a :: a in old(index) ==> a in index && index[a] == old(index)[a]
    }

    /** foundone: an object is put on the worklist unless it is there. */
    method FoundOne(o: int)
      requires Valid() && (o == NIL || o in heap)
      modifies this`todo, this`index
      ensures Valid() && Grown() && (o == NIL || o in index)
      ensures index.Keys == old(index.Keys) + (if o == NIL then {} else {o})
      ensures todo == if o == NIL || o in old(index) then old(todo) else old(todo) + [o]
    {
      hide GoodHeap, Listed;
      if o == NIL || o in index {
        return;
      }
      ListedAdd(heap, todo, index, o);
      index := index[o := |todo|];
      todo := todo + [o];
    }

    static lemma ListedAdd(heap: map<int, Obj>, todo: seq<int>, index: map<int, int>, o: int)
      requires Listed(heap, todo, index) && o in heap && o != NIL && o !in index
      ensures Listed(heap, todo + [o], index[o := |todo|])
    {
    }

    /** getindex: the position counted from the end of the worklist. */
    function GetIndex(o: int): (r: int)
      reads this
      requires o in index
    {
      |todo| - 1 - Abs(index[o])
    }

    static function Abs(x: int): int {
      if x < 0 then -x else x
    }

    /** traverse. */
    method Traverse(a: int)
      requires Valid() && a in heap
      modifies this`todo, this`index, this`heap
      ensures Valid() && Grown() && heap == old(heap)[a := Normalised(types, old(heap[a]))] && Done(types, heap[a], index)
      ensures Holds(types, old(heap[a]), index.Keys) && NoMore(types, old(heap[a]), old(index.Keys), index.Keys)
    {
      hide Layout, GoodHeap, Listed, RefsIn;
      var o := heap[a];
      ObjectGood(types, heap, a);
      NormalisedSame(types, heap, a);
      if o.builtin {
        assert heap[a := o] == heap;
        return;
      }
      FoundOne(o.ct);
      if !o.resident {
        assert heap[a := o] == heap;
        return;
      }
      TraverseWords(a);
      assert o == old(heap[a]);
    }

    static lemma ObjectGood(ty: Types, heap: map<int, Obj>, a: int)
      requires GoodHeap(ty, heap) && a in heap
      ensures GoodObject(ty, heap, a) && heap[a].ct != NIL
    {
      assert GoodObject(ty, heap, a);
      assert GoodObject(ty, heap, heap[a].ct);
    }

    /** The words of a resident object. */
    method TraverseWords(a: int)
      requires Valid() && a in heap && !heap[a].builtin && heap[a].resident && heap[a].ct in index
      modifies this`todo, this`index, this`heap
      ensures Valid() && Grown() && heap == old(heap)[a := Normalised(types, old(heap[a]))] && Done(types, heap[a], index)
      ensures RefsIn(KindsOf(types, old(heap[a])), old(heap[a]).words, types.odp, index.Keys)
      ensures NoMoreWords(KindsOf(types, old(heap[a])), old(heap[a]).words, types.odp, old(index.Keys), index.Keys)
    {
      hide Layout, GoodHeap, Listed, Done, KindsOf, IsRef, Normalised, Visited, GoodObject, RefsIn;
      ObjectGood(types, heap, a);
      var ks, ws := KindsOf(types, heap[a]), heap[a].words;
      NormalisedSame(types, heap, a);
      var i := 0;
      var p := ws;
      while i < |ks|
        invariant 0 <= i <= |ks| == |ws| == |p| && Valid() && Grown() && heap == old(heap) && heap[a].ct in index
        invariant forall j :: 0 <= j < i ==> p[j] == Normal(ks, ws, types.odp)[j] && Visited(ks, ws, types.odp, index, j)
        invariant forall j :: i <= j < |ks| ==> p[j] == ws[j]
        invariant NoMoreWords(ks, ws, types.odp, old(index.Keys), index.Keys)
      {
        ghost var before := index;
        var drop := VisitWord(a, i, ks, ws);
        if drop {
          p := p[i := NIL];
        }
        VisitedMore(ks, ws, types.odp, before, index, i);
        NoMoreTrans(ks, ws, types.odp, old(index.Keys), before.Keys, index.Keys);
        i := i + 1;
      }
      assert p == Normal(ks, ws, types.odp);
      NormalisedIs(types, heap[a]);
      NormalisedGood(types, heap, a);
      ListedSame(heap, heap[a := Normalised(types, heap[a])], todo, index);
      WordsDone(types, heap, a, index);
      WordsHeld(types, heap, a, index);
      heap := heap[a := heap[a].(words := p)];
    }

    static ghost predicate NoMoreWords(ks: seq<Kind>, ws: seq<int>, odp: set<int>, before: set<int>, after: set<int>) {
      forall x: set<int> :: before <= x && RefsIn(ks, ws, odp, x) ==> after <= x
    }

    static lemma NoMoreTrans(ks: seq<Kind>, ws: seq<int>, odp: set<int>, a: set<int>, b: set<int>, c: set<int>)
      requires NoMoreWords(ks, ws, odp, a, b) && NoMoreWords(ks, ws, odp, b, c)
      ensures NoMoreWords(ks, ws, odp, a, c)
    {
      hide RefsIn;
    }

    static lemma WordsHeld(ty: Types, heap: map<int, Obj>, a: int, index: map<int, int>)
      requires GoodObject(ty, heap, a) && |KindsOf(ty, heap[a])| == |heap[a].words|
      requires forall j :: 0 <= j < |heap[a].words| ==> Visited(KindsOf(ty, heap[a]), heap[a].words, ty.odp, index, j)
      ensures RefsIn(KindsOf(ty, heap[a]), heap[a].words, ty.odp, index.Keys)
    {
      hide Layout;
      var ks, ws := KindsOf(ty, heap[a]), heap[a].words;
      LayoutPaired(TemplateOf(ty, heap[a].ct), ws);
      forall i | 0 <= i < |ks| && IsRef(ks, ws, ty.odp, i)
        ensures ws[i] == NIL || ws[i] in index.Keys
      {
        assert Visited(ks, ws, ty.odp, index, i);
        if ks[i] == VarData {
          assert ks[i + 1] == VarType;
          assert Visited(ks, ws, ty.odp, index, i + 1);
        }
      }
    }

    static lemma NormalisedIs(ty: Types, o: Obj)
      requires !o.builtin && o.resident && |KindsOf(ty, o)| == |o.words|
      ensures Normalised(ty, o) == o.(words := Normal(KindsOf(ty, o), o.words, ty.odp))
    {
    }

    /** A word of an object being traversed; `drop` says to clear it. */
    method VisitWord(a: int, i: int, ks: seq<Kind>, ws: seq<int>) returns (drop: bool)
      requires Valid() && a in heap && ks == KindsOf(types, heap[a]) && ws == heap[a].words && 0 <= i < |ks| == |ws|
      modifies this`todo, this`index
      ensures Valid() && Grown() && Visited(ks, ws, types.odp, index, i)
      ensures NoMoreWords(ks, ws, types.odp, old(index.Keys), index.Keys)
      ensures drop <==> ks[i] == VarType && i > 0 && ws[i - 1] == NIL && ws[i] != NIL && ws[i] in types.odp
    {
      hide Layout, GoodHeap, Listed, KindsOf;
      drop := false;
      RefGood(types, heap, a, i);
      match ks[i] {
        case Plain =>
        case Pointer => FoundOne(ws[i]);
        case VarData =>
        case VarType =>
          FoundOne(ws[i]);
          if ws[i] != NIL && ws[i] in types.odp {
            if ws[i - 1] == NIL {
              drop := true;
            } else {
              RefGood(types, heap, a, i - 1);
              FoundOne(ws[i - 1]);
            }
          }
      }
    }

    /** What traversal has seen to at word `i`. */
    static ghost predicate Visited(ks: seq<Kind>, ws: seq<int>, odp: set<int>, index: map<int, int>, i: int)
      requires 0 <= i < |ks| == |ws|
    {
      && (ks[i] == Pointer || ks[i] == VarType ==> ws[i] == NIL || ws[i] in index)
      && (ks[i] == VarType && i > 0 && ws[i] != NIL && ws[i] in odp ==> ws[i - 1] == NIL || ws[i - 1] in index)
    }

    static lemma VisitedMore(ks: seq<Kind>, ws: seq<int>, odp: set<int>, index: map<int, int>, index': map<int, int>, n: int)
      requires |ks| == |ws| && 0 <= n <= |ks| && forall a :: a in index ==> a in index'
      ensures forall j :: 0 <= j < n && Visited(ks, ws, odp, index, j) ==> Visited(ks, ws, odp, index', j)
    {
    }

    static lemma WordsDone(ty: Types, heap: map<int, Obj>, a: int, index: map<int, int>)
      requires GoodObject(ty, heap, a) && heap[a].ct in index && |KindsOf(ty, heap[a])| == |heap[a].words|
      requires forall j :: 0 <= j < |heap[a].words| ==> Visited(KindsOf(ty, heap[a]), heap[a].words, ty.odp, index, j)
      ensures Done(ty, Normalised(ty, heap[a]), index)
    {
      hide Layout;
      var ks, ws := KindsOf(ty, heap[a]), heap[a].words;
      NormalisedSame(ty, heap, a);
      LayoutPaired(TemplateOf(ty, heap[a].ct), ws);
      var n := Normal(ks, ws, ty.odp);
      forall i | 0 <= i < |ks| && IsRef(ks, n, ty.odp, i)
        ensures n[i] == NIL || n[i] in index
      {
        assert Visited(ks, ws, ty.odp, index, i);
        if ks[i] == VarData {
          assert ks[i + 1] == VarType;
          assert Visited(ks, ws, ty.odp, index, i + 1);
        }
      }
    }

    /** What a word of a good object refers to exists. */
    static lemma RefGood(ty: Types, heap: map<int, Obj>, a: int, i: int)
      requires GoodHeap(ty, heap) && a in heap && 0 <= i < |heap[a].words| == |KindsOf(ty, heap[a])|
      ensures var ks, ws := KindsOf(ty, heap[a]), heap[a].words;
              && (IsRef(ks, ws, ty.odp, i) ==> ws[i] == NIL || ws[i] in heap)
              && (ks[i] == VarType ==> i > 0 && ks[i - 1] == VarData && (ws[i] == NIL ==> ws[i - 1] == NIL))
    {
      assert GoodObject(ty, heap, a);
      LayoutPaired(TemplateOf(ty, heap[a].ct), heap[a].words);
    }

    static lemma ListedSame(heap: map<int, Obj>, heap': map<int, Obj>, todo: seq<int>, index: map<int, int>)
      requires Listed(heap, todo, index) && heap'.Keys == heap.Keys
      ensures Listed(heap', todo, index)
    {
      forall k | 0 <= k < |todo|
        ensures todo[k] in heap'
      {
        assert todo[k] in heap.Keys;
      }
    }

    // ----- the whole checkpoint -----

    /** Checkpoint: everything reachable from `o`, and nothing else, is put on
        the worklist, once, and then written, last first. */
    method Checkpoint(o: int) returns (ghost records: seq<Record>)
      requires Valid() && todo == [] && index == map[] && stream == [] && o in heap && o != NIL
      modifies this
      ensures Valid() && todo != [] && todo[0] == o && Closed(types, heap, todo, index)
      ensures forall a :: a in index <==> Reachable(types, old(heap), o, a)
      ensures NormalisedUpTo(types, old(heap), heap, todo, |todo|)
      ensures stream == Flatten(records) && RecordsAre(records, types, heap, todo, index, |todo|)
      ensures PointersWritten(types, heap, todo, index, records)
    {
      hide GoodHeap, Listed, Done, Normalised, RecordsAre, Flatten, NoEmpty, NormalisedUpTo, Seen, OnlyReachable, Through, Reachable, PointersWritten;
      ghost var heap0 := heap;
      FoundOne(o);
      NormalisedNone(types, heap, todo);
      ReachableStart(types, heap, o);
      assert index.Keys == {o};
      ThroughNone(types, heap, heap, todo, index);
      var i := 0;
      while i < |todo|
        invariant 0 <= i <= |todo| && Valid() && todo != [] && todo[0] == o && stream == []
        invariant Through(types, heap0, heap, todo, index, i) && NormalisedUpTo(types, heap0, heap, todo, i)
        invariant o in index && OnlyReachable(types, heap0, o, index.Keys)
        decreases heap.Keys - Seen(todo, i)
      {
        TraverseNext(i, o, heap0);
        i := i + 1;
      }
      AllThrough(types, heap0, heap, todo, index);
      ExactlyReachable(types, heap0, o, index.Keys);
      records := Writeem();
      AllWritten(types, heap, todo, index, records);
    }

    /** What pointers of written objects lead to is on the worklist, and its
        position is in the record. */
    static ghost predicate PointersWritten(ty: Types, heap: map<int, Obj>, todo: seq<int>, index: map<int, int>, rs: seq<Record>) {
      forall a, k :: a in index && a in heap && !heap[a].builtin && heap[a].resident && 0 <= k < |heap[a].words| ==>
        PointerWritten(KindsOf(ty, heap[a]), heap[a].words, k, todo, index, rs, a)
    }

    static ghost predicate PointerWritten(ks: seq<Kind>, ws: seq<int>, k: int, todo: seq<int>, index: map<int, int>, rs: seq<Record>, a: int)
      requires 0 <= k < |ws| && a in index
    {
      var n := |todo| - 1 - index[a];
      && |ks| == |ws| && 0 <= n < |rs| && rs[n].Whole? && |rs[n].words| == |ws|
      && (ks[k] == Pointer && ws[k] != NIL ==> ws[k] in index && rs[n].words[k] == |todo| - 1 - index[ws[k]])
    }

    static lemma AllWritten(ty: Types, heap: map<int, Obj>, todo: seq<int>, index: map<int, int>, rs: seq<Record>)
      requires GoodHeap(ty, heap) && Listed(heap, todo, index) && Closed(ty, heap, todo, index) && RecordsAre(rs, ty, heap, todo, index, |todo|)
      ensures PointersWritten(ty, heap, todo, index, rs)
    {
      hide GoodHeap, Listed, Closed, RecordsAre, KindsOf;
      forall a, k | a in index && a in heap && !heap[a].builtin && heap[a].resident && 0 <= k < |heap[a].words|
        ensures PointerWritten(KindsOf(ty, heap[a]), heap[a].words, k, todo, index, rs, a)
      {
        WordWritten(ty, heap, todo, index, rs, a, k);
      }
    }

    /** The first `n` objects on the worklist have been traversed. */
    static ghost predicate Through(ty: Types, heap0: map<int, Obj>, heap: map<int, Obj>, todo: seq<int>, index: map<int, int>, n: int) {
      forall j :: 0 <= j < n && j < |todo| ==>
        && todo[j] in heap && Done(ty, heap[todo[j]], index) && NoEmpty(ty, heap[todo[j]])
        && todo[j] in heap0 && Holds(ty, heap0[todo[j]], index.Keys)
    }

    static lemma ThroughNone(ty: Types, heap0: map<int, Obj>, heap: map<int, Obj>, todo: seq<int>, index: map<int, int>)
      ensures Through(ty, heap0, heap, todo, index, 0)
    {
    }

    static lemma AllThrough(ty: Types, heap0: map<int, Obj>, heap: map<int, Obj>, todo: seq<int>, index: map<int, int>)
      requires Through(ty, heap0, heap, todo, index, |todo|) && Listed(heap, todo, index)
      ensures Closed(ty, heap, todo, index) && ClosedSet(ty, heap0, index.Keys)
    {
      hide Done, NoEmpty, Holds;
    }

    /** Another object has been traversed. */
    static lemma ThroughNext(ty: Types, heap0: map<int, Obj>, heap: map<int, Obj>, todo: seq<int>, index: map<int, int>,
                             heap': map<int, Obj>, todo': seq<int>, index': map<int, int>, i: int)
      requires Through(ty, heap0, heap, todo, index, i) && 0 <= i < |todo| <= |todo'| && todo'[..|todo|] == todo
      requires forall a :: a in index ==> a in index'
      requires forall j :: 0 <= j < i ==> todo[j] != todo[i]
      requires todo[i] in heap' && heap' == heap[todo[i] := heap'[todo[i]]] && Done(ty, heap'[todo[i]], index') && NoEmpty(ty, heap'[todo[i]])
      requires todo[i] in heap0 && Holds(ty, heap0[todo[i]], index'.Keys)
      ensures Through(ty, heap0, heap', todo', index', i + 1)
    {
      hide Done, NoEmpty, Holds;
      forall j | 0 <= j < i + 1
        ensures todo'[j] in heap' && Done(ty, heap'[todo'[j]], index') && NoEmpty(ty, heap'[todo'[j]])
        ensures todo'[j] in heap0 && Holds(ty, heap0[todo'[j]], index'.Keys)
      {
        assert todo'[j] == todo[j];
        if j < i {
          DoneMore(ty, heap[todo[j]], index, index');
          HoldsMore(ty, heap0[todo[j]], index.Keys, index'.Keys);
        }
      }
    }

    /** The next object on the worklist is traversed. */
    method TraverseNext(i: int, ghost o: int, ghost heap0: map<int, Obj>)
      requires Valid() && 0 <= i < |todo| && NormalisedUpTo(types, heap0, heap, todo, i)
      requires Through(types, heap0, heap, todo, index, i) && OnlyReachable(types, heap0, o, index.Keys)
      modifies this`todo, this`index, this`heap
      ensures Valid() && Grown() && NormalisedUpTo(types, heap0, heap, todo, i + 1)
      ensures Through(types, heap0, heap, todo, index, i + 1) && OnlyReachable(types, heap0, o, index.Keys)
      ensures heap.Keys == old(heap.Keys) && heap.Keys - Seen(todo, i + 1) < old(heap.Keys - Seen(todo, i))
    {
      hide GoodHeap, Listed, Done, Normalised, NoEmpty, Holds, NoMore, OnlyReachable, Through, NormalisedUpTo, Seen;
      ghost var heap1, todo1, index1 := heap, todo, index;
      TodoIn(heap, todo, index, i);
      ObjectGood(types, heap, todo[i]);
      NormalisedNoEmpty(types, heap, todo[i]);
      NotYet(types, heap0, heap, todo, i);
      Traverse(todo[i]);
      TodoKept(todo1, todo, i);
      TodoIn(heap, todo, index, i);
      NormalisedMore(types, heap0, heap1, heap, todo1, todo, i);
      ThroughNext(types, heap0, heap1, todo1, index1, heap, todo, index, i);
      ReachableMore(types, heap0, o, todo1[i], index1.Keys, index.Keys);
      assert heap.Keys == heap1.Keys;
    }

    /** An object that has not been traversed is as it was. */
    static lemma NotYet(ty: Types, heap0: map<int, Obj>, heap: map<int, Obj>, todo: seq<int>, i: int)
      requires NormalisedUpTo(ty, heap0, heap, todo, i) && 0 <= i < |todo| && todo[i] in heap && todo[i] !in Seen(todo, i)
      ensures todo[i] in heap0 && heap[todo[i]] == heap0[todo[i]]
    {
      var a := todo[i];
      assert a in heap0 && a !in Seen(todo, i);
    }

    static lemma TodoKept(todo: seq<int>, todo': seq<int>, i: int)
      requires 0 <= i < |todo| <= |todo'| && todo'[..|todo|] == todo
      ensures todo'[i] == todo[i] && Seen(todo', i) == Seen(todo, i)
    {
      assert forall k :: 0 <= k < |todo| ==> todo'[k] == todo[k];
    }

    static ghost function Seen(todo: seq<int>, n: int): set<int> {
      set k | 0 <= k < n && k < |todo| :: todo[k]
    }

    /** The `i`th object on the worklist is none before it. */
    static lemma TodoIn(heap: map<int, Obj>, todo: seq<int>, index: map<int, int>, i: int)
      requires Listed(heap, todo, index) && 0 <= i < |todo|
      ensures todo[i] in heap && todo[i] in index && index[todo[i]] == i && todo[i] != NIL
      ensures forall j :: 0 <= j < i ==> todo[j] != todo[i]
      ensures todo[i] !in Seen(todo, i) && Seen(todo, i + 1) == Seen(todo, i) + {todo[i]}
    {
    }

    /** The first `n` objects have been normalised, and no others. */
    static ghost predicate NormalisedUpTo(ty: Types, heap0: map<int, Obj>, heap: map<int, Obj>, todo: seq<int>, n: int) {
      && heap.Keys == heap0.Keys
      && (forall a :: a in heap0 ==> heap[a] == if a in Seen(todo, n) then Normalised(ty, heap0[a]) else heap0[a])
    }

    static lemma NormalisedNone(ty: Types, heap: map<int, Obj>, todo: seq<int>)
      ensures NormalisedUpTo(ty, heap, heap, todo, 0)
    {
    }

    static lemma NormalisedMore(ty: Types, heap0: map<int, Obj>, heap1: map<int, Obj>, heap2: map<int, Obj>, todo1: seq<int>, todo2: seq<int>, i: int)
      requires NormalisedUpTo(ty, heap0, heap1, todo1, i) && 0 <= i < |todo1| <= |todo2| && todo2[..|todo1|] == todo1
      requires todo1[i] in heap1 && heap2 == heap1[todo1[i] := Normalised(ty, heap1[todo1[i]])]
      requires Seen(todo2, i + 1) == Seen(todo2, i) + {todo2[i]} && todo2[i] !in Seen(todo2, i)
      ensures NormalisedUpTo(ty, heap0, heap2, todo2, i + 1)
    {
      hide Normalised;
      assert forall k :: 0 <= k < |todo1| ==> todo2[k] == todo1[k];
      assert Seen(todo1, i) == Seen(todo2, i);
      assert heap2.Keys == heap1.Keys;
    }

    // ----- writing -----

    /** writeem: the worklist is written, last first. */
    method Writeem() returns (ghost records: seq<Record>)
      requires Valid() && Closed(types, heap, todo, index) && stream == []
      modifies this`stream
      ensures stream == Flatten(records) && RecordsAre(records, types, heap, todo, index, |todo|)
    {
      hide GoodHeap, Listed, Closed, Flatten, Tokens, RecordOf;
      var i := |todo| - 1;
      records := [];
      FlattenNone();
      while i >= 0
        invariant -1 <= i < |todo| && stream == Flatten(records) && RecordsAre(records, types, heap, todo, index, |todo| - 1 - i)
      {
        TodoIn(heap, todo, index, i);
        WriteOne(todo[i]);
        ghost var r := RecordOf(types, Positions(index, |todo|), heap[todo[i]]);
        FlattenSnoc(records, r);
        RecordsMore(records, types, heap, todo, index, |todo| - 1 - i);
        records := records + [r];
        i := i - 1;
      }
    }

    static lemma FlattenNone()
      ensures Flatten([]) == []
    {
    }

    /** writeone. */
    method WriteOne(a: int)
      requires Valid() && Closed(types, heap, todo, index) && a in index
      modifies this`stream
      ensures a in heap && stream == old(stream) + Tokens(RecordOf(types, Positions(index, |todo|), heap[a]))
    {
      hide GoodHeap, Layout, KindsOf, Replace, Listed, Closed, NoEmpty, Paired, VariablesSound;
      Ready(types, heap, todo, index, a);
      hide Done;
      var o := heap[a];
      if o.builtin {
        stream := stream + [Sig(Extern), Oid(o.oid)];
        return;
      }
      PositionIs(index, |todo|, o.ct);
      if !o.resident {
        stream := stream + [Sig(Stub), Oid(o.oid), Num(WORD * (|o.words| + 1)), Num(GetIndex(o.ct)), Node(o.srv)];
        return;
      }
      WriteObject(a);
    }

    /** A resident object: its length, its identifier if it has one, its type,
        and its words. */
    method WriteObject(a: int)
      requires Valid() && Closed(types, heap, todo, index) && a in index && a in heap && !heap[a].builtin && heap[a].resident
      modifies this`stream
      ensures stream == old(stream) + Tokens(RecordOf(types, Positions(index, |todo|), heap[a]))
    {
      hide GoodHeap, Layout, KindsOf, Replace, Listed, Closed, NoEmpty, Paired, VariablesSound, Tokens, RecordOf;
      Ready(types, heap, todo, index, a);
      var o := heap[a];
      PositionIs(index, |todo|, o.ct);
      var length := WORD * (|o.words| + 1);
      ghost var before := stream;
      ghost var header;
      if o.oid == NOOID {
        header := [Sig(WithoutID), Num(length), Num(GetIndex(o.ct))];
        stream := stream + [Sig(WithoutID), Num(length), Num(GetIndex(o.ct))];
      } else {
        header := [Sig(WithID), Num(length + OIDSIZE), Oid(o.oid), Num(GetIndex(o.ct))];
        stream := stream + [Sig(WithID), Num(length + OIDSIZE), Oid(o.oid), Num(GetIndex(o.ct))];
      }
      WriteWords(a);
      ghost var words := Replace(KindsOf(types, o), o.words, types.odp, Positions(index, |todo|));
      Joined(before, header, Nums(words));
      WholeTokens(types, Positions(index, |todo|), o, GetIndex(o.ct), words);
    }

    static lemma Joined(a: seq<Token>, b: seq<Token>, c: seq<Token>)
      ensures (a + b) + c == a + (b + c)
    {
    }

    static lemma WholeTokens(ty: Types, at: map<int, int>, o: Obj, ct: int, words: seq<int>)
      requires !o.builtin && o.resident && |KindsOf(ty, o)| == |o.words| && o.ct in at && at[o.ct] == ct
      requires words == Replace(KindsOf(ty, o), o.words, ty.odp, at)
      ensures Tokens(RecordOf(ty, at, o))
           == (if o.oid == NOOID then [Sig(WithoutID), Num(WORD * (|o.words| + 1)), Num(ct)]
               else [Sig(WithID), Num(WORD * (|o.words| + 1) + OIDSIZE), Oid(o.oid), Num(ct)]) + Nums(words)
    {
      hide KindsOf, Replace;
    }

    /** What is known of an object about to be written. */
    static lemma Ready(ty: Types, heap: map<int, Obj>, todo: seq<int>, index: map<int, int>, a: int)
      requires GoodHeap(ty, heap) && Listed(heap, todo, index) && Closed(ty, heap, todo, index) && a in index
      ensures a in heap && Done(ty, heap[a], index) && NoEmpty(ty, heap[a]) && (heap[a].builtin || heap[a].ct in index)
      ensures |KindsOf(ty, heap[a])| == |heap[a].words| && Paired(KindsOf(ty, heap[a])) && VariablesSound(KindsOf(ty, heap[a]), heap[a].words)
      ensures forall b :: b in index ==> 0 <= index[b] < |todo|
    {
      assert todo[index[a]] == a;
      assert GoodObject(ty, heap, a);
      LayoutPaired(TemplateOf(ty, heap[a].ct), heap[a].words);
    }

    static lemma PositionIs(index: map<int, int>, n: int, o: int)
      ensures o in index ==> o in Positions(index, n) && Positions(index, n)[o] == n - 1 - index[o]
      ensures o !in index ==> o !in Positions(index, n)
    {
    }

    /** The words of an object, with positions for references. */
    method WriteWords(a: int)
      requires Valid() && Closed(types, heap, todo, index) && a in index && a in heap && !heap[a].builtin && heap[a].resident
      modifies this`stream
      ensures |KindsOf(types, heap[a])| == |heap[a].words|
      ensures stream == old(stream) + Nums(Replace(KindsOf(types, heap[a]), heap[a].words, types.odp, Positions(index, |todo|)))
    {
      hide GoodHeap, Layout, Listed, Closed, Paired;
      Ready(types, heap, todo, index, a);
      var ks, ws := KindsOf(types, heap[a]), heap[a].words;
      ghost var all := Replace(ks, ws, types.odp, Positions(index, |todo|));
      hide KindsOf, Replace;
      var i := 0;
      while i < |ks|
        invariant 0 <= i <= |ks| == |ws| == |all| && stream == old(stream) + Nums(all)[..i]
      {
        var w := WriteWord(a, i, ks, ws);
        stream := stream + [Num(w)];
        assert Nums(all)[..i + 1] == Nums(all)[..i] + [Num(all[i])];
        i := i + 1;
      }
    }

    /** What is written for one word. */
    method WriteWord(a: int, i: int, ks: seq<Kind>, ws: seq<int>) returns (w: int)
      requires Valid() && Closed(types, heap, todo, index) && a in index && a in heap && !heap[a].builtin && heap[a].resident
      requires ks == KindsOf(types, heap[a]) && ws == heap[a].words && 0 <= i < |ks| == |ws|
      ensures w == Replace(ks, ws, types.odp, Positions(index, |todo|))[i]
    {
      hide GoodHeap, Layout, Listed, Closed;
      Ready(types, heap, todo, index, a);
      PositionIs(index, |todo|, ws[i]);
      w := ws[i];
      match ks[i] {
        case Plain =>
        case Pointer =>
          if w != NIL {
            w := GetIndex(w);
          }
        case VarData =>
          if ws[i + 1] == NIL {
            assert w == NIL;
          } else if ws[i + 1] in types.odp {
            assert ks[i + 1] == VarType && w != NIL;
            w := GetIndex(w);
          }
        case VarType =>
          if w != NIL {
            w := GetIndex(w);
          }
      }
    }
  }
}
