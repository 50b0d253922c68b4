/** Writing a heap and reading it back (vm/write.c, vm/read.c). */
module CheckpointRoundTrip {
  import opened CheckpointFormat
  import opened CheckpointWriter
  import opened CheckpointReader

  /** The reader sees the types the writer had: the type at a position has the
      template of the type written there, and references for data if that has. */
  ghost predicate SameTypes(ty: Types, st: StreamTypes, at: map<int, int>) {
    && (forall ct :: ct in at ==> TemplateAt(st, at[ct]) == TemplateOf(ty, ct))
    && (forall ct :: ct in at ==> (at[ct] in st.odp <==> ct in ty.odp))
  }

  /** What the writer leaves behind. */
  ghost predicate Written(ty: Types, heap: map<int, Obj>, todo: seq<int>, index: map<int, int>, rs: seq<Record>) {
    GoodHeap(ty, heap) && Listed(heap, todo, index) && Closed(ty, heap, todo, index) && RecordsAre(rs, ty, heap, todo, index, |todo|)
  }

  /** Where the object at `a` has gone. */
  function Copy(index: map<int, int>, n: int, where: map<int, int>): map<int, int> {
    map a | a in index :: CheckpointReader.At(where, n - 1 - index[a])
  }

  lemma RecordAt(ty: Types, heap: map<int, Obj>, todo: seq<int>, index: map<int, int>, rs: seq<Record>, a: int)
    requires Written(ty, heap, todo, index, rs) && a in index
    ensures a in heap && 0 <= |todo| - 1 - index[a] < |rs| == |todo|
    ensures rs[|todo| - 1 - index[a]] == RecordOf(ty, Positions(index, |todo|), heap[a])
    ensures Done(ty, heap[a], index) && GoodObject(ty, heap, a)
    ensures forall b :: b in index ==> 0 <= index[b] < |todo|
  {
    hide RecordOf, Done, GoodObject, NoEmpty;
    var j := |todo| - 1 - index[a];
    assert FromEnd(todo, j) == a;
    assert todo[index[a]] == a;
  }

  lemma PositionsIn(index: map<int, int>, n: int)
    requires forall b :: b in index ==> 0 <= index[b] < n
    ensures forall b :: b in index ==> b in Positions(index, n) && 0 <= Positions(index, n)[b] == n - 1 - index[b] < n
    ensures Positions(index, n).Keys == index.Keys
  {
  }

  /** The raw words of a record have the layout of the words written. */
  lemma RawLayout(ty: Types, st: StreamTypes, heap: map<int, Obj>, todo: seq<int>, index: map<int, int>, rs: seq<Record>, a: int)
    requires Written(ty, heap, todo, index, rs) && SameTypes(ty, st, Positions(index, |todo|)) && a in index
    requires a in heap && !heap[a].builtin && heap[a].resident
    ensures var o, at := heap[a], Positions(index, |todo|);
            && |KindsOf(ty, o)| == |o.words| && o.ct in at && Paired(KindsOf(ty, o))
            && RecordOf(ty, at, o) == Whole(o.oid, at[o.ct], Replace(KindsOf(ty, o), o.words, ty.odp, at))
            && Layout(TemplateAt(st, at[o.ct]), Replace(KindsOf(ty, o), o.words, ty.odp, at)) == Some(KindsOf(ty, o))
            && RefsIn(KindsOf(ty, o), o.words, ty.odp, at.Keys)
  {
    hide Layout;
    RecordAt(ty, heap, todo, index, rs, a);
    PositionsIn(index, |todo|);
    var o, at := heap[a], Positions(index, |todo|);
    LayoutPaired(TemplateOf(ty, o.ct), o.words);
    ReplacePlain(KindsOf(ty, o), o.words, ty.odp, at);
    LayoutSame(TemplateOf(ty, o.ct), o.words, Replace(KindsOf(ty, o), o.words, ty.odp, at));
  }

  /** Every record the writer makes can be read. */
  lemma RecordsGood(ty: Types, st: StreamTypes, heap: map<int, Obj>, todo: seq<int>, index: map<int, int>, rs: seq<Record>)
    requires Written(ty, heap, todo, index, rs) && SameTypes(ty, st, Positions(index, |todo|))
    ensures forall j :: 0 <= j < |rs| ==> GoodRecord(st, rs[j], |rs|)
  {
    hide Layout, Written, SameTypes, Positions, Replace, KindsOf, Done, RecordOf, IsRef;
    forall j | 0 <= j < |rs|
      ensures GoodRecord(st, rs[j], |rs|)
    {
      var a := Entry(ty, heap, todo, index, rs, j);
      RecordAt(ty, heap, todo, index, rs, a);
      OneRecordGood(ty, st, heap, todo, index, rs, a);
    }
  }

  lemma Entry(ty: Types, heap: map<int, Obj>, todo: seq<int>, index: map<int, int>, rs: seq<Record>, j: int) returns (a: int)
    requires Written(ty, heap, todo, index, rs) && 0 <= j < |rs|
    ensures a in index && |todo| - 1 - index[a] == j && |rs| == |todo|
  {
    a := FromEnd(todo, j);
  }

  lemma OneRecordGood(ty: Types, st: StreamTypes, heap: map<int, Obj>, todo: seq<int>, index: map<int, int>, rs: seq<Record>, a: int)
    requires Written(ty, heap, todo, index, rs) && SameTypes(ty, st, Positions(index, |todo|)) && a in index && a in heap
    ensures GoodRecord(st, RecordOf(ty, Positions(index, |todo|), heap[a]), |rs|)
  {
    hide Layout, KindsOf, Replace, IsRef, GoodObject, Positions;
    RecordAt(ty, heap, todo, index, rs, a);
    PositionsIn(index, |todo|);
    var o, at := heap[a], Positions(index, |todo|);
    if !o.builtin && o.resident {
      RawLayout(ty, st, heap, todo, index, rs, a);
      SamePositions(ty, st, at);
      hide Written, SameTypes;
      PositionsRefs(KindsOf(ty, o), o.words, ty.odp, at, st.odp, |rs|);
      hide RecordOf, Done;
      WholeGood(st, o.oid, at[o.ct], Replace(KindsOf(ty, o), o.words, ty.odp, at), KindsOf(ty, o), |rs|);
    }
  }

  lemma SamePositions(ty: Types, st: StreamTypes, at: map<int, int>)
    requires SameTypes(ty, st, at)
    ensures forall x :: x in at ==> (at[x] in st.odp <==> x in ty.odp)
  {
  }

  lemma WholeGood(st: StreamTypes, oid: int, ct: int, raw: seq<int>, ks: seq<Kind>, n: int)
    requires 0 <= ct < n && |raw| == |ks| && Layout(TemplateAt(st, ct), raw) == Some(ks)
    requires forall i :: 0 <= i < |raw| && IsRef(ks, raw, st.odp, i) ==> raw[i] == NIL || 0 <= raw[i] < n
    ensures GoodRecord(st, Whole(oid, ct, raw), n)
  {
    hide Layout, IsRef;
  }

  /** The references written are positions in the stream. */
  lemma PositionsRefs(ks: seq<Kind>, ws: seq<int>, odp: set<int>, at: map<int, int>, odp1: set<int>, n: int)
    requires Paired(ks) && RefsIn(ks, ws, odp, at.Keys)
    requires forall x :: x in at ==> 0 <= at[x] < n && (at[x] in odp1 <==> x in odp)
    ensures var raw := Replace(ks, ws, odp, at);
            forall i :: 0 <= i < |raw| && IsRef(ks, raw, odp1, i) ==> raw[i] == NIL || 0 <= raw[i] < n
  {
    var raw := Replace(ks, ws, odp, at);
    forall i | 0 <= i < |raw| && IsRef(ks, raw, odp1, i)
      ensures raw[i] == NIL || 0 <= raw[i] < n
    {
      if ks[i] == VarData {
        assert ks[i + 1] == VarType && IsRef(ks, ws, odp, i + 1);
      }
      assert IsRef(ks, ws, odp, i);
    }
  }

  /** The objects the reader has made or has, by where the writer found them;
      builtins that it has not got are NIL.  Different objects have become
      different ones, and each is named by the identifier it had. */
  ghost predicate SameGraph(ty: Types, heap: map<int, Obj>, index: map<int, int>, vm0: Vm, heap': map<int, Obj>, oids': map<int, int>, to: map<int, int>) {
    && to.Keys == index.Keys
    && (forall a, b :: a in index && b in index && a != b && to[a] != NIL ==> to[a] != to[b])
    && (forall a :: a in index && a in heap ==> CopyOf(ty, heap[a], vm0, heap', oids', to, to[a]))
    && (forall a :: a in index && a in heap ==> NamedAs(heap[a], oids', to[a]))
  }

  /** `t` is an object, and if `o` has an identifier, the one that names. */
  ghost predicate NamedAs(o: Obj, oids': map<int, int>, t: int) {
    && (t == NIL <==> o.builtin && o.oid !in oids')
    && (o.oid != NOOID && t != NIL ==> o.oid in oids' && oids'[o.oid] == t)
  }

  /** `t` is what object `o` has become: the VM's own builtin, or a stub, or an
      object of the same OID, with the type and the words of `o` where every
      reference leads to what its object has become. */
  ghost predicate CopyOf(ty: Types, o: Obj, vm0: Vm, heap': map<int, Obj>, oids': map<int, int>, to: map<int, int>, t: int) {
    if o.builtin then t == if o.oid in oids' then oids'[o.oid] else NIL
    else if !o.resident then
      && t in heap' && o.ct in to
      && (if o.oid != NOOID && o.oid in vm0.oids then t == vm0.oids[o.oid] && t in vm0.heap && heap'[t] == Relocated(vm0.heap[t], o.srv)
          else heap'[t] == Obj(o.oid, false, false, to[o.ct], Blank(|o.words|), o.srv))
    else
      && t in heap' && o.ct in to && |KindsOf(ty, o)| == |o.words|
      && (o.oid != NOOID && o.oid in vm0.oids ==> t == vm0.oids[o.oid])
      && heap'[t] == Obj(o.oid, false, true, to[o.ct], Replace(KindsOf(ty, o), o.words, ty.odp, to), 0)
  }

  lemma CopyAt(index: map<int, int>, n: int, where: map<int, int>, a: int)
    requires a in index
    ensures a in Copy(index, n, where) && Copy(index, n, where)[a] == CheckpointReader.At(where, n - 1 - index[a])
  {
  }

  /** What a resident object becomes. */
  lemma WholeCopy(ty: Types, st: StreamTypes, heap: map<int, Obj>, todo: seq<int>, index: map<int, int>, rs: seq<Record>, where: map<int, int>, a: int)
    requires Written(ty, heap, todo, index, rs) && SameTypes(ty, st, Positions(index, |todo|)) && a in index
    requires a in heap && !heap[a].builtin && heap[a].resident
    requires forall j :: j in where <==> 0 <= j < |rs|
    ensures var o, to := heap[a], Copy(index, |todo|, where);
            && o.ct in to && |KindsOf(ty, o)| == |o.words|
            && Translated(st, Raw(RecordOf(ty, Positions(index, |todo|), o)), where)
               == Obj(o.oid, false, true, to[o.ct], Replace(KindsOf(ty, o), o.words, ty.odp, to), 0)
  {
    hide Layout;
    RecordAt(ty, heap, todo, index, rs, a);
    RawLayout(ty, st, heap, todo, index, rs, a);
    PositionsIn(index, |todo|);
    var o, at, to := heap[a], Positions(index, |todo|), Copy(index, |todo|, where);
    var ks := KindsOf(ty, o);
    CopyAt(index, |todo|, where, o.ct);
    forall x | x in at
      ensures at[x] != NIL && at[x] in where && x in to && to[x] == where[at[x]] && (at[x] in st.odp <==> x in ty.odp)
    {
      CopyAt(index, |todo|, where, x);
    }
    hide Written, GoodObject, Done, KindsOf, RecordOf;
    ReplaceTwice(ks, o.words, ty.odp, at, st.odp, where, to);
    RawWhole(ty, st, at, o, ks, where);
  }

  lemma RawWhole(ty: Types, st: StreamTypes, at: map<int, int>, o: Obj, ks: seq<Kind>, where: map<int, int>)
    requires |ks| == |o.words| && o.ct in at
    requires RecordOf(ty, at, o) == Whole(o.oid, at[o.ct], Replace(ks, o.words, ty.odp, at))
    requires Layout(TemplateAt(st, at[o.ct]), Replace(ks, o.words, ty.odp, at)) == Some(ks)
    ensures Translated(st, Raw(RecordOf(ty, at, o)), where)
         == Obj(o.oid, false, true, CheckpointReader.At(where, at[o.ct]), Replace(ks, Replace(ks, o.words, ty.odp, at), st.odp, where), 0)
  {
    hide Layout, RecordOf, Replace;
  }

  /** What any object becomes. */
  lemma EachCopied(ty: Types, st: StreamTypes, heap: map<int, Obj>, todo: seq<int>, index: map<int, int>, rs: seq<Record>,
                   vm0: Vm, heap': map<int, Obj>, oids': map<int, int>, objects: seq<int>, externs: map<int, int>, a: int)
    requires Written(ty, heap, todo, index, rs) && SameTypes(ty, st, Positions(index, |todo|)) && a in index && a in heap
    requires VmSound(vm0) && Restored(st, vm0, heap', oids', objects, externs, rs)
    ensures var to := Copy(index, |todo|, Where(objects, externs, oids'));
            a in to && CopyOf(ty, heap[a], vm0, heap', oids', to, to[a])
            && (!heap[a].builtin ==> to[a] == objects[|todo| - 1 - index[a]] != NIL)
  {
    hide Written, SameTypes, Layout, Restored, KindsOf, GoodObject, Positions, Where, Translated, Replace, Done, RecordOf, Made, CopyOf, VmSound;
    var where := Where(objects, externs, oids');
    RecordAt(ty, heap, todo, index, rs, a);
    CopyAt(index, |todo|, where, a);
    MadeAt(st, vm0, heap', oids', objects, externs, rs, |todo| - 1 - index[a]);
    if heap[a].builtin {
      BuiltinCopied(ty, st, heap, todo, index, rs, vm0, heap', oids', objects, externs, a);
    } else {
      CopyAt(index, |todo|, where, heap[a].ct) by {
        TypeListed(ty, heap[a], index);
      }
      if heap[a].resident {
        WholeCopy(ty, st, heap, todo, index, rs, where, a);
        WholeCopied(ty, st, heap, todo, index, rs, vm0, heap', oids', objects, externs, a);
      } else {
        StubCopied(ty, st, heap, todo, index, rs, vm0, heap', oids', objects, externs, a);
      }
    }
  }

  lemma TypeListed(ty: Types, o: Obj, index: map<int, int>)
    requires Done(ty, o, index) && !o.builtin
    ensures o.ct in index
  {
  }

  lemma MadeAt(st: StreamTypes, vm0: Vm, heap': map<int, Obj>, oids': map<int, int>, objects: seq<int>, externs: map<int, int>, rs: seq<Record>, j: int)
    requires Restored(st, vm0, heap', oids', objects, externs, rs) && 0 <= j < |rs|
    ensures |objects| == |rs| && Made(st, vm0, heap', oids', objects, externs, rs, j)
    ensures forall i :: i in Where(objects, externs, oids') <==> 0 <= i < |rs|
    ensures j in Where(objects, externs, oids')
    ensures Where(objects, externs, oids')[j] == if objects[j] != NIL then objects[j]
            else if j in externs && externs[j] in oids' then oids'[externs[j]] else NIL
  {
    hide Made;
  }

  lemma BuiltinCopied(ty: Types, st: StreamTypes, heap: map<int, Obj>, todo: seq<int>, index: map<int, int>, rs: seq<Record>,
                      vm0: Vm, heap': map<int, Obj>, oids': map<int, int>, objects: seq<int>, externs: map<int, int>, a: int)
    requires a in index && a in heap && heap[a].builtin && 0 <= |todo| - 1 - index[a] < |rs| == |objects|
    requires var j := |todo| - 1 - index[a];
             rs[j] == RecordOf(ty, Positions(index, |todo|), heap[a]) && Made(st, vm0, heap', oids', objects, externs, rs, j)
    ensures var to := Copy(index, |todo|, Where(objects, externs, oids'));
            a in to && CopyOf(ty, heap[a], vm0, heap', oids', to, to[a])
  {
  }

  lemma StubCopied(ty: Types, st: StreamTypes, heap: map<int, Obj>, todo: seq<int>, index: map<int, int>, rs: seq<Record>,
                   vm0: Vm, heap': map<int, Obj>, oids': map<int, int>, objects: seq<int>, externs: map<int, int>, a: int)
    requires a in index && a in heap && !heap[a].builtin && !heap[a].resident && 0 <= |todo| - 1 - index[a] < |rs| == |objects| == |todo|
    requires heap[a].ct in index && 0 <= index[heap[a].ct] < |todo| && VmSound(vm0)
    requires var j := |todo| - 1 - index[a];
             rs[j] == RecordOf(ty, Positions(index, |todo|), heap[a]) && Made(st, vm0, heap', oids', objects, externs, rs, j)
    ensures var to := Copy(index, |todo|, Where(objects, externs, oids'));
            a in to && CopyOf(ty, heap[a], vm0, heap', oids', to, to[a]) && to[a] == objects[|todo| - 1 - index[a]] != NIL
  {
    hide Layout, KindsOf, Replace;
  }

  lemma WholeCopied(ty: Types, st: StreamTypes, heap: map<int, Obj>, todo: seq<int>, index: map<int, int>, rs: seq<Record>,
                    vm0: Vm, heap': map<int, Obj>, oids': map<int, int>, objects: seq<int>, externs: map<int, int>, a: int)
    requires a in index && a in heap && !heap[a].builtin && heap[a].resident && 0 <= |todo| - 1 - index[a] < |rs| == |objects| == |todo|
    requires VmSound(vm0)
    requires var j, o, to := |todo| - 1 - index[a], heap[a], Copy(index, |todo|, Where(objects, externs, oids'));
             && rs[j] == RecordOf(ty, Positions(index, |todo|), heap[a]) && Made(st, vm0, heap', oids', objects, externs, rs, j)
             && o.ct in to && |KindsOf(ty, o)| == |o.words|
             && Translated(st, Raw(rs[j]), Where(objects, externs, oids'))
                == Obj(o.oid, false, true, to[o.ct], Replace(KindsOf(ty, o), o.words, ty.odp, to), 0)
    ensures var to := Copy(index, |todo|, Where(objects, externs, oids'));
            a in to && CopyOf(ty, heap[a], vm0, heap', oids', to, to[a]) && to[a] == objects[|todo| - 1 - index[a]] != NIL
  {
    hide Layout, KindsOf, Replace, Translated, Positions;
  }

  /** Writing a heap and reading it back gives the same graph. */
  lemma RoundTrip(ty: Types, st: StreamTypes, heap: map<int, Obj>, todo: seq<int>, index: map<int, int>, rs: seq<Record>,
                  vm0: Vm, heap': map<int, Obj>, oids': map<int, int>, objects: seq<int>, externs: map<int, int>)
    requires Written(ty, heap, todo, index, rs) && SameTypes(ty, st, Positions(index, |todo|)) && Identified(heap)
    requires VmSound(vm0) && Restored(st, vm0, heap', oids', objects, externs, rs) && (forall x :: x in oids' ==> oids'[x] != NIL) && NOOID !in oids'
    ensures SameGraph(ty, heap, index, vm0, heap', oids', Copy(index, |todo|, Where(objects, externs, oids')))
  {
    hide Written, SameTypes, CopyOf, Where, Identified, VmSound, NamedAs;
    var to := Copy(index, |todo|, Where(objects, externs, oids'));
    hide Restored;
    forall a | a in index && a in heap
      ensures CopyOf(ty, heap[a], vm0, heap', oids', to, to[a]) && NamedAs(heap[a], oids', to[a])
    {
      EachCopied(ty, st, heap, todo, index, rs, vm0, heap', oids', objects, externs, a);
      EachNamed(ty, st, heap, todo, index, rs, vm0, heap', oids', objects, externs, a);
    }
    forall a, b | a in index && b in index && a != b && to[a] != NIL
      ensures to[a] != to[b]
    {
      EachDiffers(ty, st, heap, todo, index, rs, vm0, heap', oids', objects, externs, a, b);
    }
  }

  /** Each object is named by its identifier. */
  lemma EachNamed(ty: Types, st: StreamTypes, heap: map<int, Obj>, todo: seq<int>, index: map<int, int>, rs: seq<Record>,
                  vm0: Vm, heap': map<int, Obj>, oids': map<int, int>, objects: seq<int>, externs: map<int, int>, a: int)
    requires Written(ty, heap, todo, index, rs) && SameTypes(ty, st, Positions(index, |todo|)) && a in index && a in heap
    requires VmSound(vm0) && Restored(st, vm0, heap', oids', objects, externs, rs) && (forall x :: x in oids' ==> oids'[x] != NIL) && NOOID !in oids'
    ensures var to := Copy(index, |todo|, Where(objects, externs, oids')); a in to && NamedAs(heap[a], oids', to[a])
  {
    hide Written, SameTypes, Where, VmSound, RecordOf, Restored, Layout, KindsOf, Replace;
    EachCopied(ty, st, heap, todo, index, rs, vm0, heap', oids', objects, externs, a);
    RecordAt(ty, heap, todo, index, rs, a);
    RecordOid(ty, Positions(index, |todo|), heap[a]);
    RestoredNames(st, vm0, heap', oids', objects, externs, rs, |todo| - 1 - index[a]);
  }

  lemma RestoredNames(st: StreamTypes, vm0: Vm, heap': map<int, Obj>, oids': map<int, int>, objects: seq<int>, externs: map<int, int>, rs: seq<Record>, j: int)
    requires Restored(st, vm0, heap', oids', objects, externs, rs) && 0 <= j < |rs|
    ensures |objects| == |rs| && (OidOf(rs[j]) != NOOID ==> OidOf(rs[j]) in oids' && oids'[OidOf(rs[j])] == objects[j])
  {
    hide Made;
  }

  /** Two objects have become two. */
  lemma EachDiffers(ty: Types, st: StreamTypes, heap: map<int, Obj>, todo: seq<int>, index: map<int, int>, rs: seq<Record>,
                    vm0: Vm, heap': map<int, Obj>, oids': map<int, int>, objects: seq<int>, externs: map<int, int>, a: int, b: int)
    requires Written(ty, heap, todo, index, rs) && SameTypes(ty, st, Positions(index, |todo|)) && Identified(heap)
    requires VmSound(vm0) && Restored(st, vm0, heap', oids', objects, externs, rs) && (forall x :: x in oids' ==> oids'[x] != NIL) && NOOID !in oids'
    requires a in index && b in index && a != b
    ensures var to := Copy(index, |todo|, Where(objects, externs, oids'));
            a in to && b in to && (to[a] != NIL ==> to[a] != to[b])
  {
    hide Written, SameTypes, Where, VmSound, RecordOf, Restored, Layout, KindsOf, Replace, Copy;
    RecordAt(ty, heap, todo, index, rs, a);
    RecordAt(ty, heap, todo, index, rs, b);
    EachCopied(ty, st, heap, todo, index, rs, vm0, heap', oids', objects, externs, a);
    EachCopied(ty, st, heap, todo, index, rs, vm0, heap', oids', objects, externs, b);
    EachNamed(ty, st, heap, todo, index, rs, vm0, heap', oids', objects, externs, a);
    EachNamed(ty, st, heap, todo, index, rs, vm0, heap', oids', objects, externs, b);
    ObjectsDiffer(st, vm0, heap', oids', objects, externs, rs);
    IndexDiffers(ty, heap, todo, index, rs, a, b);
    if heap[a].oid != NOOID && heap[b].oid != NOOID {
      NamesDiffer(st, vm0, heap', oids', objects, externs, rs);
    } else if heap[a].builtin && heap[a].oid in oids' {
      UnnamedDiffers(ty, st, heap, todo, index, rs, vm0, heap', oids', objects, externs, b, heap[a].oid);
    } else if heap[b].builtin && heap[b].oid in oids' {
      UnnamedDiffers(ty, st, heap, todo, index, rs, vm0, heap', oids', objects, externs, a, heap[b].oid);
    }
  }

  lemma NamesDiffer(st: StreamTypes, vm0: Vm, heap': map<int, Obj>, oids': map<int, int>, objects: seq<int>, externs: map<int, int>, rs: seq<Record>)
    requires Restored(st, vm0, heap', oids', objects, externs, rs)
    ensures forall x, z :: x in oids' && z in oids' && x != z ==> oids'[x] != oids'[z]
  {
    hide Made;
  }

  /** An object without an identifier is no object that an identifier names. */
  lemma UnnamedDiffers(ty: Types, st: StreamTypes, heap: map<int, Obj>, todo: seq<int>, index: map<int, int>, rs: seq<Record>,
                       vm0: Vm, heap': map<int, Obj>, oids': map<int, int>, objects: seq<int>, externs: map<int, int>, a: int, x: int)
    requires Written(ty, heap, todo, index, rs) && VmSound(vm0) && Restored(st, vm0, heap', oids', objects, externs, rs)
    requires a in index && a in heap && !heap[a].builtin && heap[a].oid == NOOID && x in oids' && NOOID !in oids'
    ensures 0 <= |todo| - 1 - index[a] < |objects| && oids'[x] != objects[|todo| - 1 - index[a]]
  {
    hide Written, RecordOf, Restored, Layout, KindsOf, Replace, Made, Positions;
    RecordAt(ty, heap, todo, index, rs, a);
    RecordOid(ty, Positions(index, |todo|), heap[a]);
    UnnamedFresh(st, vm0, heap', oids', objects, externs, rs, |todo| - 1 - index[a], x) by {
      hide VmSound;
      RecordKind(ty, Positions(index, |todo|), heap[a]);
    }
  }

  lemma RecordKind(ty: Types, at: map<int, int>, o: Obj)
    ensures RecordOf(ty, at, o).External? <==> o.builtin
  {
    hide KindsOf, Replace;
  }

  lemma UnnamedFresh(st: StreamTypes, vm0: Vm, heap': map<int, Obj>, oids': map<int, int>, objects: seq<int>, externs: map<int, int>, rs: seq<Record>, j: int, x: int)
    requires VmSound(vm0) && Restored(st, vm0, heap', oids', objects, externs, rs)
    requires 0 <= j < |rs| && OidOf(rs[j]) == NOOID && !rs[j].External? && x in oids' && NOOID !in oids'
    ensures |objects| == |rs| && oids'[x] != objects[j]
  {
    hide Translated, Where;
    ObjectsDiffer(st, vm0, heap', oids', objects, externs, rs);
    assert Made(st, vm0, heap', oids', objects, externs, rs, j);
    assert NameKnown(vm0, oids', objects, rs, x);
    if x in vm0.oids && oids'[x] == vm0.oids[x] {
      assert vm0.oids[x] in vm0.heap && vm0.oids[x] < vm0.next;
    } else {
      var k :| 0 <= k < |objects| && k < |rs| && OidOf(rs[k]) == x && objects[k] == oids'[x];
      assert k != j;
    }
  }

  lemma ObjectsDiffer(st: StreamTypes, vm0: Vm, heap': map<int, Obj>, oids': map<int, int>, objects: seq<int>, externs: map<int, int>, rs: seq<Record>)
    requires Restored(st, vm0, heap', oids', objects, externs, rs)
    ensures |objects| == |rs| && forall i, j :: 0 <= i < |rs| && 0 <= j < |rs| && i != j && objects[i] != NIL ==> objects[i] != objects[j]
  {
    hide Made;
    forall i, j | 0 <= i < |rs| && 0 <= j < |rs| && i != j && objects[i] != NIL
      ensures objects[i] != objects[j]
    {
      if objects[j] != NIL && j < i {
        assert objects[j] != objects[i];
      }
    }
  }

  lemma IndexDiffers(ty: Types, heap: map<int, Obj>, todo: seq<int>, index: map<int, int>, rs: seq<Record>, a: int, b: int)
    requires Written(ty, heap, todo, index, rs) && a in index && b in index && a != b
    ensures index[a] != index[b] && 0 <= index[a] < |todo| && 0 <= index[b] < |todo| && |rs| == |todo|
  {
  }

  // ----- from the heap written to the heap read -----

  /** Objects have identifiers of their own, if any; builtins and those elsewhere have one. */
  ghost predicate Identified(heap: map<int, Obj>) {
    && (forall a, b :: a in heap && b in heap && a != b && heap[a].oid != NOOID ==> heap[a].oid != heap[b].oid)
    && (forall a :: a in heap && (heap[a].builtin || !heap[a].resident) ==> heap[a].oid != NOOID)
  }

  lemma IdentifiedAfter(ty: Types, heap0: map<int, Obj>, heap: map<int, Obj>, todo: seq<int>)
    requires Identified(heap0) && Writer.NormalisedUpTo(ty, heap0, heap, todo, |todo|)
    ensures Identified(heap)
  {
    forall a | a in heap
      ensures a in heap0 && heap[a].oid == heap0[a].oid && heap[a].builtin == heap0[a].builtin && heap[a].resident == heap0[a].resident
    {
      assert a in heap0.Keys;
    }
  }

  lemma RecordOid(ty: Types, at: map<int, int>, o: Obj)
    ensures OidOf(RecordOf(ty, at, o)) == if o.builtin then NOOID else o.oid
    ensures RecordOf(ty, at, o).StubOf? <==> !o.builtin && !o.resident
  {
    hide KindsOf, Replace;
  }

  /** The records written carry different identifiers, and all stubs have one. */
  lemma WrittenOnce(ty: Types, heap: map<int, Obj>, todo: seq<int>, index: map<int, int>, rs: seq<Record>)
    requires Written(ty, heap, todo, index, rs) && Identified(heap)
    ensures OidsOnce(rs) && StubsNamed(rs)
  {
    hide Written, RecordOf, KindsOf, Replace, Done, GoodObject;
    forall i | 0 <= i < |rs|
      ensures rs[i].StubOf? ==> rs[i].oid != NOOID
    {
      var a := Entry(ty, heap, todo, index, rs, i);
      RecordAt(ty, heap, todo, index, rs, a);
      RecordOid(ty, Positions(index, |todo|), heap[a]);
    }
    forall i, j | 0 <= i < j < |rs| && OidOf(rs[i]) != NOOID
      ensures OidOf(rs[i]) != OidOf(rs[j])
    {
      var a := Entry(ty, heap, todo, index, rs, i);
      var b := Entry(ty, heap, todo, index, rs, j);
      RecordAt(ty, heap, todo, index, rs, a);
      RecordAt(ty, heap, todo, index, rs, b);
      RecordOid(ty, Positions(index, |todo|), heap[a]);
      RecordOid(ty, Positions(index, |todo|), heap[b]);
    }
  }

  /** What the types at their positions in the stream say. */
  function TypesAt(ty: Types, at: map<int, int>): StreamTypes
    requires forall a, b :: a in at && b in at && a != b ==> at[a] != at[b]
  {
    StreamTypes(map ct | ct in at :: at[ct] := TemplateOf(ty, ct), set ct | ct in at && ct in ty.odp :: at[ct])
  }

  lemma TypesAtSame(ty: Types, at: map<int, int>)
    requires forall a, b :: a in at && b in at && a != b ==> at[a] != at[b]
    ensures SameTypes(ty, TypesAt(ty, at), at)
  {
  }

  lemma PositionsDiffer(heap: map<int, Obj>, todo: seq<int>, index: map<int, int>)
    requires Listed(heap, todo, index)
    ensures var at := Positions(index, |todo|); forall a, b :: a in at && b in at && a != b ==> at[a] != at[b]
  {
    forall a, b | a in index && b in index && a != b
      ensures index[a] != index[b]
    {
      assert todo[index[a]] == a && todo[index[b]] == b;
    }
  }

  /** What has become of an object that is builtin or elsewhere, and of the
      identifier of any object. */
  lemma OtherBack(ty: Types, heap: map<int, Obj>, index: map<int, int>, vm0: Vm, heap': map<int, Obj>, oids': map<int, int>,
                  to: map<int, int>, a: int)
    requires SameGraph(ty, heap, index, vm0, heap', oids', to) && a in index && a in heap
    ensures a in to && (to[a] == -1 <==> heap[a].builtin && heap[a].oid !in oids')
    ensures heap[a].oid != -1 && to[a] != -1 ==> heap[a].oid in oids' && oids'[heap[a].oid] == to[a]
    ensures !heap[a].builtin ==> to[a] in heap' && heap[a].ct in to && (heap[a].oid in vm0.oids && heap[a].oid != -1 ==> to[a] == vm0.oids[heap[a].oid])
    ensures !heap[a].builtin && heap[a].resident ==> heap'[to[a]].oid == heap[a].oid && heap'[to[a]].ct == to[heap[a].ct]
    ensures !heap[a].builtin && heap[a].resident ==> heap'[to[a]].resident && !heap'[to[a]].builtin
    ensures !heap[a].builtin && !heap[a].resident && (heap[a].oid == -1 || heap[a].oid !in vm0.oids)
            ==> heap'[to[a]] == Obj(heap[a].oid, false, false, to[heap[a].ct], seq(|heap[a].words|, i => -1), heap[a].srv)
    ensures !heap[a].builtin && !heap[a].resident && heap[a].oid != -1 && heap[a].oid in vm0.oids
            ==> to[a] in vm0.heap && heap'[to[a]] == if vm0.heap[to[a]].resident then vm0.heap[to[a]] else vm0.heap[to[a]].(srv := heap[a].srv)
    ensures forall b :: b in index && b != a && to[b] == to[a] ==> to[a] == -1
  {
    hide Layout;
    assert CopyOf(ty, heap[a], vm0, heap', oids', to, to[a]) && NamedAs(heap[a], oids', to[a]);
  }

  /** What has become of the word at `k` of a resident object. */
  lemma WordBack(ty: Types, heap: map<int, Obj>, todo: seq<int>, index: map<int, int>, rs: seq<Record>,
                 vm0: Vm, heap': map<int, Obj>, oids': map<int, int>, to: map<int, int>, a: int, k: int)
    requires Written(ty, heap, todo, index, rs) && SameGraph(ty, heap, index, vm0, heap', oids', to)
    requires a in index && a in heap && !heap[a].builtin && heap[a].resident && 0 <= k < |heap[a].words|
    ensures to.Keys == index.Keys && to[a] in heap' && |heap'[to[a]].words| == |heap[a].words| == |KindsOf(ty, heap[a])|
    ensures heap[a].ct in index && heap'[to[a]].ct == to[heap[a].ct] && heap'[to[a]].resident
    ensures var ks, ws, new' := KindsOf(ty, heap[a]), heap[a].words, heap'[to[a]].words;
            && (ks[k] == Plain ==> new'[k] == ws[k])
            && (ks[k] == Pointer || ks[k] == VarType ==> if ws[k] == NIL then new'[k] == NIL else ws[k] in index && new'[k] == to[ws[k]])
            && (ks[k] == VarData ==> k + 1 < |ws|)
            && (ks[k] == VarData ==>
                  if ws[k] == NIL then new'[k] == NIL
                  else if ws[k + 1] in ty.odp then ws[k] in index && new'[k] == to[ws[k]]
                  else new'[k] == ws[k])
  {
    hide Layout, KindsOf;
    WordWritten(ty, heap, todo, index, rs, a, k);
    assert CopyOf(ty, heap[a], vm0, heap', oids', to, to[a]);
    VariableTyped(ty, heap, todo, index, rs, a);
    hide Written, SameGraph;
  }

  lemma VariableTyped(ty: Types, heap: map<int, Obj>, todo: seq<int>, index: map<int, int>, rs: seq<Record>, a: int)
    requires Written(ty, heap, todo, index, rs) && a in index && a in heap
    ensures VariablesSound(KindsOf(ty, heap[a]), heap[a].words)
  {
    hide Layout;
    RecordAt(ty, heap, todo, index, rs, a);
  }

  lemma WrittenIs(ty: Types, heap: map<int, Obj>, todo: seq<int>, index: map<int, int>, rs: seq<Record>)
    requires GoodHeap(ty, heap) && Listed(heap, todo, index) && Closed(ty, heap, todo, index) && RecordsAre(rs, ty, heap, todo, index, |todo|)
    ensures Written(ty, heap, todo, index, rs)
  {
  }

  lemma OthersKept(st: StreamTypes, vm0: Vm, heap: map<int, Obj>, oids: map<int, int>, objects: seq<int>, externs: map<int, int>, rs: seq<Record>)
    requires Restored(st, vm0, heap, oids, objects, externs, rs)
    ensures forall a :: a in vm0.heap && a !in objects ==> a in heap && heap[a] == vm0.heap[a]
  {
  }

  lemma NoNilNamed(vm: Vm)
    requires VmSound(vm)
    ensures (forall x :: x in vm.oids ==> vm.oids[x] != NIL) && NOOID !in vm.oids
  {
  }

  /** A heap is written by one VM and read by another: what is reachable from
      `o`, and nothing else, is there again, one object for each, with every
      reference renamed; the other objects of that VM are untouched. */
  method Transfer(w: Writer, o: int, vm: Vm) returns (reader: Reader, ghost to: map<int, int>)
    requires w.Valid() && w.todo == [] && w.index == map[] && w.stream == [] && o in w.heap && o != NIL
    requires Identified(w.heap) && VmSound(vm)
    modifies w
    ensures fresh(reader)
    ensures forall a :: a in w.index <==> Reachable(w.types, old(w.heap), o, a)
    ensures Writer.NormalisedUpTo(w.types, old(w.heap), w.heap, w.todo, |w.todo|)
    ensures SameGraph(w.types, w.heap, w.index, vm, reader.heap, reader.oids, to)
    ensures PointersBack(w.types, w.heap, w.index, reader.heap, to)
    ensures VmSound(reader.Here()) && forall x :: x in vm.oids ==> x in reader.oids && reader.oids[x] == vm.oids[x]
    ensures forall a :: a in vm.heap && a !in reader.objects ==> a in reader.heap && reader.heap[a] == vm.heap[a]
  {
    hide GoodHeap, Listed, Closed, RecordsAre, Reachable, Writer.NormalisedUpTo, SameGraph, VmSound, OidsOnce, Restored, GoodRecord,
         SameTypes, TypesAt, Written, Identified, Positions, Flatten, Registered, TranslatedAll, ReadAll, Where, PointersBack, Writer.PointersWritten;
    ghost var heap0 := w.heap;
    ghost var rs := w.Checkpoint(o);
    ghost var heap, todo, index := w.heap, w.todo, w.index;
    IdentifiedAfter(w.types, heap0, heap, todo);
    WrittenIs(w.types, heap, todo, index, rs);
    WrittenOnce(w.types, heap, todo, index, rs);
    PositionsDiffer(heap, todo, index);
    TypesAtSame(w.types, Positions(index, |todo|));
    var st := TypesAt(w.types, Positions(w.index, |w.todo|));
    RecordsGood(w.types, st, heap, todo, index, rs);
    reader := new Reader(st, vm);
    reader.ReadCheckpoint(w.stream, rs);
    NoNilNamed(reader.Here());
    RoundTrip(w.types, st, heap, todo, index, rs, vm, reader.heap, reader.oids, reader.objects, reader.externs);
    OthersKept(st, vm, reader.heap, reader.oids, reader.objects, reader.externs, rs);
    to := Copy(index, |todo|, Where(reader.objects, reader.externs, reader.oids));
    AllBack(w.types, heap, todo, index, rs, vm, reader.heap, reader.oids, to);
  }

  /** Pointers lead to what the objects they led to have become. */
  ghost predicate PointersBack(ty: Types, heap: map<int, Obj>, index: map<int, int>, heap': map<int, Obj>, to: map<int, int>) {
    forall a, k :: a in index && a in heap && !heap[a].builtin && heap[a].resident && 0 <= k < |heap[a].words| ==>
      PointerBack(KindsOf(ty, heap[a]), heap[a].words, k, heap', to, a)
  }

  ghost predicate PointerBack(ks: seq<Kind>, ws: seq<int>, k: int, heap': map<int, Obj>, to: map<int, int>, a: int)
    requires 0 <= k < |ws|
  {
    && |ks| == |ws| && a in to && to[a] in heap' && |heap'[to[a]].words| == |ws|
    && (ks[k] == Pointer && ws[k] != NIL ==> ws[k] in to && heap'[to[a]].words[k] == to[ws[k]])
  }

  lemma AllBack(ty: Types, heap: map<int, Obj>, todo: seq<int>, index: map<int, int>, rs: seq<Record>,
                vm0: Vm, heap': map<int, Obj>, oids': map<int, int>, to: map<int, int>)
    requires Written(ty, heap, todo, index, rs) && SameGraph(ty, heap, index, vm0, heap', oids', to)
    ensures PointersBack(ty, heap, index, heap', to)
  {
    hide Written, SameGraph, KindsOf;
    forall a, k | a in index && a in heap && !heap[a].builtin && heap[a].resident && 0 <= k < |heap[a].words|
      ensures PointerBack(KindsOf(ty, heap[a]), heap[a].words, k, heap', to, a)
    {
      WordBack(ty, heap, todo, index, rs, vm0, heap', oids', to, a, k);
    }
  }
}
