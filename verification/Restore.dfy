/** The checkpoint reader of vm/read.c. */
module CheckpointReader {
  import opened CheckpointFormat

  /** What the type objects in a stream say, by their positions. */
  datatype StreamTypes = StreamTypes(template: map<int, seq<Field>>, odp: set<int>)

  function TemplateAt(ty: StreamTypes, ct: int): seq<Field> {
    if ct in ty.template then ty.template[ct] else []
  }

  /** The OID a record gives to an object, if any. */
  function OidOf(r: Record): int {
    match r
    case External(_) => NOOID
    case StubOf(oid, _, _, _) => oid
    case Whole(oid, _, _) => oid
  }

  /** No two objects of the stream have the same OID, and every stub has one. */
  ghost predicate OidsOnce(rs: seq<Record>) {
    && (forall i, j :: 0 <= i < j < |rs| && OidOf(rs[i]) != NOOID ==> OidOf(rs[i]) != OidOf(rs[j]))
    && StubsNamed(rs)
  }

  /** Every stub has an OID. */
  ghost predicate StubsNamed(rs: seq<Record>) {
    forall i :: 0 <= i < |rs| && rs[i].StubOf? ==> rs[i].oid != NOOID
  }

  function Blank(n: nat): seq<int> {
    seq(n, i => NIL)
  }

  /** The object a record makes, its type and references still positions. */
  function Raw(r: Record): Obj {
    match r
    case External(oid) => Obj(oid, true, false, 0, [], 0)
    case StubOf(oid, size, ct, srv) => Obj(oid, false, false, ct, Blank(size), srv)
    case Whole(oid, ct, words) => Obj(oid, false, true, ct, words, 0)
  }

  /** A VM: its heap, addresses not used yet, and the objects its OIDs name. */
  datatype Vm = Vm(heap: map<int, Obj>, next: int, oids: map<int, int>)

  ghost predicate VmSound(vm: Vm) {
    && vm.next >= 0 && NOOID !in vm.oids && (forall a :: a in vm.heap ==> 0 <= a < vm.next)
    && (forall x :: x in vm.oids ==> vm.oids[x] in vm.heap)
    && (forall x, z :: x in vm.oids && z in vm.oids && x != z ==> vm.oids[x] != vm.oids[z])
  }

  /** The record names an object that the VM has already. */
  predicate Present(vm: Vm, r: Record) {
    OidOf(r) != NOOID && OidOf(r) in vm.oids
  }

  /** An object that the VM has already, now known to live at `srv` unless it is here. */
  function Relocated(o: Obj, srv: int): Obj {
    if o.resident then o else o.(srv := srv)
  }

  // ----- reading any stream -----

  /** How far the reader has come: the objects of the records so far, the
      identifiers of those that are builtin, and the objects whose types and
      references are still positions. */
  datatype Reading = Reading(vm: Vm, objects: seq<int>, externs: map<int, int>, notHosted: set<int>)

  /** The reading after another record: an object that the VM or an earlier
      record has given the identifier is updated, otherwise one is made. */
  function Entered(rd: Reading, r: Record): Reading {
    match r
    case External(oid) => rd.(objects := rd.objects + [NIL], externs := rd.externs[|rd.objects| := oid])
    case StubOf(oid, _, _, srv) =>
      if oid in rd.vm.oids then
        var a := rd.vm.oids[oid];
        rd.(vm := if a in rd.vm.heap then rd.vm.(heap := rd.vm.heap[a := Relocated(rd.vm.heap[a], srv)]) else rd.vm, objects := rd.objects + [a])
      else MadeNew(rd, r)
    case Whole(oid, _, _) =>
      if oid != NOOID && oid in rd.vm.oids then
        var a := rd.vm.oids[oid];
        rd.(vm := rd.vm.(heap := rd.vm.heap[a := Raw(r)]), objects := rd.objects + [a], notHosted := rd.notHosted + {a})
      else MadeNew(rd, r)
  }

  function MadeNew(rd: Reading, r: Record): Reading {
    var a := rd.vm.next;
    Reading(Vm(rd.vm.heap[a := Raw(r)], a + 1, if OidOf(r) == NOOID then rd.vm.oids else rd.vm.oids[OidOf(r) := a]),
            rd.objects + [a], rd.externs, rd.notHosted + {a})
  }

  function ReadAll(vm: Vm, rs: seq<Record>): Reading {
    if rs == [] then Reading(vm, [], map[], {}) else Entered(ReadAll(vm, rs[..|rs| - 1]), rs[|rs| - 1])
  }

  lemma ReadAllNext(vm: Vm, rs: seq<Record>, n: nat)
    requires n < |rs|
    ensures ReadAll(vm, rs[..n + 1]) == Entered(ReadAll(vm, rs[..n]), rs[n])
  {
    assert rs[..n + 1][..n] == rs[..n];
  }

  lemma EnteredSound(rd: Reading, r: Record)
    requires VmSound(rd.vm) && (r.StubOf? ==> r.oid != NOOID)
    ensures VmSound(Entered(rd, r).vm) && |Entered(rd, r).objects| == |rd.objects| + 1
  {
  }

  /** An object can be translated: its type and references are positions. */
  ghost predicate Readable(ty: StreamTypes, o: Obj, n: int) {
    && 0 <= o.ct < n
    && (o.resident ==> Layout(TemplateAt(ty, o.ct), o.words).Some?
                       && forall i :: 0 <= i < |o.words| && IsRef(Layout(TemplateAt(ty, o.ct), o.words).value, o.words, ty.odp, i)
                                      ==> o.words[i] == NIL || 0 <= o.words[i] < n)
  }

  /** All objects that are waiting to be translated can be. */
  ghost predicate AllReadable(ty: StreamTypes, heap: map<int, Obj>, objects: seq<int>, notHosted: set<int>, n: int) {
    forall a :: a in notHosted ==> a in heap && a in objects && a != NIL && Readable(ty, heap[a], n)
  }

  lemma EnteredReadable(ty: StreamTypes, rd: Reading, r: Record, n: int)
    requires VmSound(rd.vm) && (r.StubOf? ==> r.oid != NOOID) && GoodRecord(ty, r, n)
    requires AllReadable(ty, rd.vm.heap, rd.objects, rd.notHosted, n)
    ensures AllReadable(ty, Entered(rd, r).vm.heap, Entered(rd, r).objects, Entered(rd, r).notHosted, n)
  {
    hide Layout;
    var rd' := Entered(rd, r);
    forall a | a in rd'.notHosted
      ensures a in rd'.vm.heap && a in rd'.objects && a != NIL && Readable(ty, rd'.vm.heap[a], n)
    {
      assert rd'.objects[|rd.objects|] in rd'.objects;
      if a in rd.notHosted && a != rd'.objects[|rd.objects|] {
        assert rd'.vm.heap[a] == rd.vm.heap[a];
      } else if r.StubOf? && r.oid in rd.vm.oids {
        assert rd'.vm.heap[a] == Relocated(rd.vm.heap[a], r.srv);
      } else {
        assert rd'.vm.heap[a] == Raw(r);
      }
    }
  }

  lemma {:induction false} AllRead(ty: StreamTypes, vm: Vm, rs: seq<Record>, n: nat)
    requires VmSound(vm) && StubsNamed(rs) && n <= |rs| && forall j :: 0 <= j < |rs| ==> GoodRecord(ty, rs[j], |rs|)
    ensures var rd := ReadAll(vm, rs[..n]);
            VmSound(rd.vm) && |rd.objects| == n && AllReadable(ty, rd.vm.heap, rd.objects, rd.notHosted, |rs|)
  {
    hide GoodRecord, AllReadable, Entered, VmSound;
    if n == 0 {
      NoneReadable(ty, vm, |rs|);
    } else {
      AllRead(ty, vm, rs, n - 1);
      ReadAllNext(vm, rs, n - 1);
      EnteredSound(ReadAll(vm, rs[..n - 1]), rs[n - 1]);
      EnteredReadable(ty, ReadAll(vm, rs[..n - 1]), rs[n - 1], |rs|);
    }
  }

  lemma NoneReadable(ty: StreamTypes, vm: Vm, n: int)
    ensures AllReadable(ty, vm.heap, [], {}, n)
  {
  }

  /** Every identifier read names the object read under it. */
  ghost predicate Naming(rd: Reading, rs: seq<Record>, n: nat) {
    && VmSound(rd.vm) && |rd.objects| == n <= |rs|
    && forall j :: 0 <= j < n && OidOf(rs[j]) != NOOID ==> OidOf(rs[j]) in rd.vm.oids && rd.objects[j] == rd.vm.oids[OidOf(rs[j])]
  }

  lemma EnteredNaming(rd: Reading, rs: seq<Record>, n: nat)
    requires Naming(rd, rs, n) && n < |rs| && StubsNamed(rs)
    ensures Naming(Entered(rd, rs[n]), rs, n + 1)
    ensures forall x :: x in rd.vm.oids ==> x in Entered(rd, rs[n]).vm.oids && Entered(rd, rs[n]).vm.oids[x] == rd.vm.oids[x]
  {
    EnteredSound(rd, rs[n]);
    hide VmSound;
  }

  /** Records of one identifier are records of one object: the one the VM has
      under it, if any. */
  lemma {:induction false} SameOidSameObject(vm: Vm, rs: seq<Record>, n: nat)
    requires VmSound(vm) && StubsNamed(rs) && n <= |rs|
    ensures var rd := ReadAll(vm, rs[..n]);
            && Naming(rd, rs, n)
            && (forall x :: x in vm.oids ==> x in rd.vm.oids && rd.vm.oids[x] == vm.oids[x])
            && (forall i, j :: 0 <= i < n && 0 <= j < n && OidOf(rs[i]) == OidOf(rs[j]) != NOOID ==> rd.objects[i] == rd.objects[j])
  {
    if n > 0 {
      SameOidSameObject(vm, rs, n - 1);
      ReadAllNext(vm, rs, n - 1);
      EnteredNaming(ReadAll(vm, rs[..n - 1]), rs, n - 1);
      hide Entered, VmSound, StubsNamed;
    }
  }

  // ----- reading a stream whose identifiers are all different -----

  /** What record `r`, read as the `j`th object, has become. */
  ghost predicate ReadAs(vm0: Vm, heap: map<int, Obj>, a: int, externs: map<int, int>, j: int, r: Record) {
    match r
    case External(oid) => a == NIL && j in externs && externs[j] == oid
    case StubOf(oid, size, ct, srv) =>
      if Present(vm0, r) then a == vm0.oids[oid] && a in heap && a in vm0.heap && heap[a] == Relocated(vm0.heap[a], srv)
      else a >= vm0.next && a in heap && heap[a] == Raw(r)
    case Whole(oid, ct, words) =>
      (if Present(vm0, r) then a == vm0.oids[oid] else a >= vm0.next) && a in heap && heap[a] == Raw(r)
  }

  /** The first `n` records have been read. */
  ghost predicate ReadUpTo(vm0: Vm, vm: Vm, objects: seq<int>, externs: map<int, int>, unhosted: set<int>, rs: seq<Record>, n: nat) {
    && VmSound(vm0) && VmSound(vm) && |objects| == n <= |rs| && vm.next >= vm0.next
    && (forall j :: 0 <= j < n ==> ReadAs(vm0, vm.heap, objects[j], externs, j, rs[j]))
    && (forall i, j :: 0 <= i < j < n && objects[i] != NIL ==> objects[i] != objects[j])
    && (forall x :: x in vm.oids ==> OidKnown(vm0, vm, objects, rs, x))
    && (forall x :: x in vm0.oids ==> x in vm.oids)
    && (forall j :: j in externs ==> 0 <= j < n && rs[j].External?)
    && (forall a :: a in unhosted <==> MadeHere(vm0, objects, rs, a))
  }

  /** An OID names what it named before, or an object made from a record. */
  ghost predicate OidKnown(vm0: Vm, vm: Vm, objects: seq<int>, rs: seq<Record>, x: int) {
    x in vm.oids && ((x in vm0.oids && vm.oids[x] == vm0.oids[x])
                     || (vm.oids[x] >= vm0.next && exists j :: 0 <= j < |objects| && j < |rs| && OidOf(rs[j]) == x && objects[j] == vm.oids[x]))
  }

  ghost predicate MadeHere(vm0: Vm, objects: seq<int>, rs: seq<Record>, a: int) {
    exists j :: 0 <= j < |objects| && j < |rs| && Fresh(vm0, rs[j]) && objects[j] == a
  }

  /** The record makes an object, or makes one anew. */
  predicate Fresh(vm0: Vm, r: Record) {
    match r
    case External(_) => false
    case StubOf(_, _, _, _) => !Present(vm0, r)
    case Whole(_, _, _) => true
  }

  /** Where the record's object goes. */
  function PlaceOf(vm0: Vm, vm: Vm, r: Record): int {
    if r.External? then NIL else if Present(vm0, r) then vm0.oids[OidOf(r)] else vm.next
  }

  /** The VM after the record has been read. */
  function Enter(vm0: Vm, vm: Vm, r: Record): Vm {
    var a := PlaceOf(vm0, vm, r);
    if r.External? then vm
    else if r.StubOf? && Present(vm0, r) then
      if a in vm.heap then vm.(heap := vm.heap[a := Relocated(vm.heap[a], r.srv)]) else vm
    else if Present(vm0, r) then vm.(heap := vm.heap[a := Raw(r)])
    else Vm(vm.heap[a := Raw(r)], vm.next + 1, if OidOf(r) == NOOID then vm.oids else vm.oids[OidOf(r) := a])
  }

  lemma EnterSound(vm0: Vm, vm: Vm, objects: seq<int>, externs: map<int, int>, unhosted: set<int>, rs: seq<Record>, n: nat)
    requires ReadUpTo(vm0, vm, objects, externs, unhosted, rs, n) && n < |rs| && OidsOnce(rs)
    ensures VmSound(Enter(vm0, vm, rs[n]))
    ensures !Present(vm0, rs[n]) && OidOf(rs[n]) != NOOID ==> OidOf(rs[n]) !in vm.oids
  {
    assert OidOf(rs[n]) != NOOID ==> forall j :: 0 <= j < n ==> OidOf(rs[j]) != OidOf(rs[n]);
    assert OidOf(rs[n]) in vm.oids ==> OidKnown(vm0, vm, objects, rs, OidOf(rs[n]));
  }

  /** The place is none of those given before. */
  lemma PlaceNew(vm0: Vm, vm: Vm, objects: seq<int>, externs: map<int, int>, unhosted: set<int>, rs: seq<Record>, n: nat)
    requires ReadUpTo(vm0, vm, objects, externs, unhosted, rs, n) && n < |rs| && OidsOnce(rs) && !rs[n].External?
    ensures PlaceOf(vm0, vm, rs[n]) >= 0 && forall j :: 0 <= j < n ==> objects[j] != PlaceOf(vm0, vm, rs[n])
  {
    var a := PlaceOf(vm0, vm, rs[n]);
    forall j | 0 <= j < n
      ensures objects[j] != a
    {
      assert ReadAs(vm0, vm.heap, objects[j], externs, j, rs[j]);
    }
  }

  lemma EnterRead(vm0: Vm, vm: Vm, objects: seq<int>, externs: map<int, int>, unhosted: set<int>, rs: seq<Record>, n: nat)
    requires ReadUpTo(vm0, vm, objects, externs, unhosted, rs, n) && n < |rs| && OidsOnce(rs)
    requires PresentKept(vm0, vm, objects, rs, n)
    ensures var a, vm' := PlaceOf(vm0, vm, rs[n]), Enter(vm0, vm, rs[n]);
            var objects', externs' := objects + [a], if rs[n].External? then externs[n := rs[n].oid] else externs;
            && (forall j :: 0 <= j < n + 1 ==> ReadAs(vm0, vm'.heap, objects'[j], externs', j, rs[j]))
            && (forall i, j :: 0 <= i < j < n + 1 && objects'[i] != NIL ==> objects'[i] != objects'[j])
            && PresentKept(vm0, vm', objects', rs, n + 1)
  {
    var a, vm' := PlaceOf(vm0, vm, rs[n]), Enter(vm0, vm, rs[n]);
    if !rs[n].External? {
      PlaceNew(vm0, vm, objects, externs, unhosted, rs, n);
    }
    var objects', externs' := objects + [a], if rs[n].External? then externs[n := rs[n].oid] else externs;
    forall j | 0 <= j < n + 1
      ensures ReadAs(vm0, vm'.heap, objects'[j], externs', j, rs[j])
    {
      if j < n {
        assert ReadAs(vm0, vm.heap, objects[j], externs, j, rs[j]);
      }
    }
  }

  /** Objects of the VM that the stream does not mention are as they were. */
  ghost predicate PresentKept(vm0: Vm, vm: Vm, objects: seq<int>, rs: seq<Record>, n: nat) {
    && |objects| == n <= |rs|
    && (forall a :: a in vm0.heap && a !in objects ==> a in vm.heap && vm.heap[a] == vm0.heap[a])
  }

  lemma EnterOids(vm0: Vm, vm: Vm, objects: seq<int>, externs: map<int, int>, unhosted: set<int>, rs: seq<Record>, n: nat)
    requires ReadUpTo(vm0, vm, objects, externs, unhosted, rs, n) && n < |rs| && OidsOnce(rs)
    ensures var a, vm' := PlaceOf(vm0, vm, rs[n]), Enter(vm0, vm, rs[n]);
            var objects' := objects + [a];
            && (forall x :: x in vm'.oids ==> OidKnown(vm0, vm', objects', rs, x))
            && (forall x :: x in vm0.oids ==> x in vm'.oids)
  {
    var a, vm' := PlaceOf(vm0, vm, rs[n]), Enter(vm0, vm, rs[n]);
    var objects' := objects + [a];
    forall x | x in vm'.oids
      ensures OidKnown(vm0, vm', objects', rs, x)
    {
      if x in vm.oids && vm'.oids[x] == vm.oids[x] {
        assert OidKnown(vm0, vm, objects, rs, x);
        if !(x in vm0.oids && vm.oids[x] == vm0.oids[x]) {
          var j :| 0 <= j < |objects| && OidOf(rs[j]) == x && objects[j] == vm.oids[x];
          assert objects'[j] == vm'.oids[x];
        }
      } else {
        assert objects'[n] == vm'.oids[x];
      }
    }
  }

  lemma EnterMade(vm0: Vm, objects: seq<int>, unhosted: set<int>, rs: seq<Record>, a: int)
    requires |objects| < |rs| && forall b :: b in unhosted <==> MadeHere(vm0, objects, rs, b)
    ensures var unhosted' := if Fresh(vm0, rs[|objects|]) then unhosted + {a} else unhosted;
            forall b :: b in unhosted' <==> MadeHere(vm0, objects + [a], rs, b)
  {
    var n, objects' := |objects|, objects + [a];
    var unhosted' := if Fresh(vm0, rs[n]) then unhosted + {a} else unhosted;
    forall b
      ensures b in unhosted' <==> MadeHere(vm0, objects', rs, b)
    {
      if MadeHere(vm0, objects, rs, b) {
        var j :| 0 <= j < |objects| && Fresh(vm0, rs[j]) && objects[j] == b;
        assert objects'[j] == b;
      }
      if Fresh(vm0, rs[n]) && b == a {
        assert objects'[n] == b;
      }
      if MadeHere(vm0, objects', rs, b) {
        var j :| 0 <= j < |objects'| && Fresh(vm0, rs[j]) && objects'[j] == b;
        assert j < n ==> objects[j] == b;
      }
    }
  }

  /** Reading one more record. */
  lemma EnterNext(vm0: Vm, vm: Vm, objects: seq<int>, externs: map<int, int>, unhosted: set<int>, rs: seq<Record>, n: nat)
    requires ReadUpTo(vm0, vm, objects, externs, unhosted, rs, n) && n < |rs| && OidsOnce(rs)
    requires PresentKept(vm0, vm, objects, rs, n)
    ensures var a, vm' := PlaceOf(vm0, vm, rs[n]), Enter(vm0, vm, rs[n]);
            ReadUpTo(vm0, vm', objects + [a], if rs[n].External? then externs[n := rs[n].oid] else externs,
                     if Fresh(vm0, rs[n]) then unhosted + {a} else unhosted, rs, n + 1)
            && PresentKept(vm0, vm', objects + [a], rs, n + 1)
  {
    hide OidKnown, MadeHere, ReadAs;
    EnterSound(vm0, vm, objects, externs, unhosted, rs, n);
    EnterRead(vm0, vm, objects, externs, unhosted, rs, n);
    EnterOids(vm0, vm, objects, externs, unhosted, rs, n);
    EnterMade(vm0, objects, unhosted, rs, PlaceOf(vm0, vm, rs[n]));
  }

  /** When identifiers differ, what the VM has already is what it had at first. */
  lemma EnteredOnce(vm0: Vm, rd: Reading, rs: seq<Record>, n: nat)
    requires ReadUpTo(vm0, rd.vm, rd.objects, rd.externs, rd.notHosted, rs, n) && n < |rs| && OidsOnce(rs)
    ensures var a, r := PlaceOf(vm0, rd.vm, rs[n]), rs[n];
            Entered(rd, r) == Reading(Enter(vm0, rd.vm, r), rd.objects + [a], if r.External? then rd.externs[n := r.oid] else rd.externs,
                                      if Fresh(vm0, r) then rd.notHosted + {a} else rd.notHosted)
  {
    hide ReadUpTo, OidsOnce;
    KnownOid(vm0, rd.vm, rd.objects, rd.externs, rd.notHosted, rs, n);
  }

  lemma {:induction false} ReadOnce(vm0: Vm, rs: seq<Record>, n: nat)
    requires VmSound(vm0) && OidsOnce(rs) && n <= |rs|
    ensures var rd := ReadAll(vm0, rs[..n]);
            ReadUpTo(vm0, rd.vm, rd.objects, rd.externs, rd.notHosted, rs, n) && PresentKept(vm0, rd.vm, rd.objects, rs, n)
  {
    if n == 0 {
      ReadNone(vm0, rs);
    } else {
      hide ReadUpTo, PresentKept, OidsOnce, Entered, Enter, PlaceOf, Fresh, VmSound;
      ReadOnce(vm0, rs, n - 1);
      var rd := ReadAll(vm0, rs[..n - 1]);
      ReadAllNext(vm0, rs, n - 1);
      EnteredOnce(vm0, rd, rs, n - 1);
      EnterNext(vm0, rd.vm, rd.objects, rd.externs, rd.notHosted, rs, n - 1);
    }
  }

  lemma ReadNone(vm0: Vm, rs: seq<Record>)
    requires VmSound(vm0)
    ensures ReadUpTo(vm0, vm0, [], map[], {}, rs, 0) && PresentKept(vm0, vm0, [], rs, 0)
  {
  }

  /** An OID names something now if it did before the stream, for no other
      record has it. */
  lemma KnownOid(vm0: Vm, vm: Vm, objects: seq<int>, externs: map<int, int>, unhosted: set<int>, rs: seq<Record>, n: nat)
    requires ReadUpTo(vm0, vm, objects, externs, unhosted, rs, n) && n < |rs| && OidsOnce(rs)
    ensures |objects| == n
    ensures OidOf(rs[n]) != NOOID ==> (OidOf(rs[n]) in vm.oids <==> Present(vm0, rs[n]))
    ensures Present(vm0, rs[n]) ==> vm.oids[OidOf(rs[n])] == vm0.oids[OidOf(rs[n])] && vm.oids[OidOf(rs[n])] >= 0
                                    && vm.oids[OidOf(rs[n])] in vm.heap
    ensures NOOID !in vm.oids && (rs[n].StubOf? ==> rs[n].oid != NOOID)
  {
    EnterSound(vm0, vm, objects, externs, unhosted, rs, n);
    assert OidOf(rs[n]) != NOOID ==> forall j :: 0 <= j < n ==> OidOf(rs[j]) != OidOf(rs[n]);
    assert OidOf(rs[n]) in vm.oids ==> OidKnown(vm0, vm, objects, rs, OidOf(rs[n]));
  }

  // ----- from positions to objects -----

  /** The object at every position: one made or found, or one that an identifier
      names. */
  function Where(objects: seq<int>, externs: map<int, int>, oids: map<int, int>): map<int, int> {
    map j | 0 <= j < |objects| :: if objects[j] != NIL then objects[j]
                                  else if j in externs && externs[j] in oids then oids[externs[j]] else NIL
  }

  function At(where: map<int, int>, j: int): int {
    if j in where then where[j] else NIL
  }

  /** The kinds of the words of a record's object. */
  function KindsIn(ty: StreamTypes, o: Obj): seq<Kind> {
    var l := Layout(TemplateAt(ty, o.ct), o.words);
    if l.Some? then l.value else []
  }

  /** The object with its type and references no longer positions. */
  function Translated(ty: StreamTypes, o: Obj, where: map<int, int>): Obj {
    var o' := o.(ct := At(where, o.ct));
    if o.resident && |KindsIn(ty, o)| == |o.words| then o'.(words := Replace(KindsIn(ty, o), o.words, ty.odp, where)) else o'
  }

  /** A record whose object fits its template and refers to positions in the stream. */
  ghost predicate GoodRecord(ty: StreamTypes, r: Record, n: int) {
    match r
    case External(_) => true
    case StubOf(_, _, ct, _) => 0 <= ct < n
    case Whole(_, ct, words) =>
      && 0 <= ct < n && Layout(TemplateAt(ty, ct), words).Some?
      && forall i :: 0 <= i < |words| && IsRef(Layout(TemplateAt(ty, ct), words).value, words, ty.odp, i) ==> words[i] == NIL || 0 <= words[i] < n
  }

  /** The objects that were waiting have been translated, and no others. */
  ghost predicate TranslatedAll(ty: StreamTypes, heap0: map<int, Obj>, heap: map<int, Obj>, made: set<int>, where: map<int, int>) {
    && heap.Keys == heap0.Keys
    && (forall a :: a in heap && a in made ==> heap[a] == Translated(ty, heap0[a], where))
    && (forall a :: a in heap && a !in made ==> heap[a] == heap0[a])
  }

  // ----- references that cannot be resolved yet -----

  /** Slot `offset` of object `within` is to hold the object of `oid` once there is one. */
  datatype Reloc = Reloc(oid: int, within: int, offset: int)

  function ExternOid(externs: map<int, int>, index: int): int {
    if index in externs then externs[index] else NOOID
  }

  /** The slot that is registered for the word at `i`: for a variable's type it
      is that of the datum before it. */
  function SlotOf(ks: seq<Kind>, i: int): int
    requires 0 <= i < |ks|
  {
    if ks[i] == VarType then i - 1 else i
  }

  /** Word `i` refers to something that the VM has not got. */
  predicate Missing(ks: seq<Kind>, ws: seq<int>, odp: set<int>, where: map<int, int>, i: int)
    requires |ws| == |ks| && 0 <= i < |ks|
  {
    IsRef(ks, ws, odp, i) && ws[i] != NIL && At(where, ws[i]) == NIL
  }

  /** What is registered for the first `n` words of an object at `a`. */
  function RelocsUpTo(ks: seq<Kind>, ws: seq<int>, odp: set<int>, where: map<int, int>, externs: map<int, int>, a: int, n: nat): set<Reloc>
    requires n <= |ws| == |ks|
  {
    set i | 0 <= i < n && Missing(ks, ws, odp, where, i) :: Reloc(ExternOid(externs, ws[i]), a, SlotOf(ks, i))
  }

  lemma RelocsNext(ks: seq<Kind>, ws: seq<int>, odp: set<int>, where: map<int, int>, externs: map<int, int>, a: int, n: nat)
    requires n < |ws| == |ks|
    ensures RelocsUpTo(ks, ws, odp, where, externs, a, n + 1)
         == RelocsUpTo(ks, ws, odp, where, externs, a, n)
            + (if Missing(ks, ws, odp, where, n) then {Reloc(ExternOid(externs, ws[n]), a, SlotOf(ks, n))} else {})
  {
    hide IsRef;
  }

  /** What is registered when the object at `a`, still `o`, is translated. */
  function RelocsOf(ty: StreamTypes, o: Obj, a: int, where: map<int, int>, externs: map<int, int>): set<Reloc> {
    (if At(where, o.ct) == NIL then {Reloc(ExternOid(externs, o.ct), NIL, 0)} else {})
    + (if o.resident && |KindsIn(ty, o)| == |o.words| then RelocsUpTo(KindsIn(ty, o), o.words, ty.odp, where, externs, a, |o.words|) else {})
  }

  /** Just these are registered for the objects in `made`. */
  ghost predicate Registered(ty: StreamTypes, heap0: map<int, Obj>, made: set<int>, where: map<int, int>, externs: map<int, int>,
                             pending0: set<Reloc>, pending: set<Reloc>)
  {
    forall r :: r in pending <==> r in pending0 || exists a :: a in made && a in heap0 && r in RelocsOf(ty, heap0[a], a, where, externs)
  }

  /** The slot of one word of an object is registered for an identifier if the
      word refers to it and the VM has not got it, and only then; but the slot
      of a variable's type never is: in its place that of the datum is. */
  lemma RegisteredSlots(ty: StreamTypes, o: Obj, a: int, where: map<int, int>, externs: map<int, int>, oid: int, s: int)
    requires o.resident && Layout(TemplateAt(ty, o.ct), o.words).Some? && a != NIL
    ensures |KindsIn(ty, o)| == |o.words| && Paired(KindsIn(ty, o))
    ensures var ks := KindsIn(ty, o);
            Reloc(oid, a, s) in RelocsOf(ty, o, a, where, externs)
            <==> 0 <= s < |ks| && ((ks[s] != VarType && HoleFor(ks, o.words, ty.odp, where, externs, oid, s))
                                   || (ks[s] == VarData && HoleFor(ks, o.words, ty.odp, where, externs, oid, s + 1)))
  {
    LayoutPaired(TemplateAt(ty, o.ct), o.words);
    hide Layout, IsRef, HoleFor, RelocsUpTo;
    WordSlots(KindsIn(ty, o), o.words, ty.odp, where, externs, a, oid, s);
  }

  lemma WordSlots(ks: seq<Kind>, ws: seq<int>, odp: set<int>, where: map<int, int>, externs: map<int, int>, a: int, oid: int, s: int)
    requires |ws| == |ks| && Paired(ks)
    ensures Reloc(oid, a, s) in RelocsUpTo(ks, ws, odp, where, externs, a, |ws|)
            <==> 0 <= s < |ks| && ((ks[s] != VarType && HoleFor(ks, ws, odp, where, externs, oid, s))
                                   || (ks[s] == VarData && HoleFor(ks, ws, odp, where, externs, oid, s + 1)))
  {
    hide Missing, ExternOid;
    if Reloc(oid, a, s) in RelocsUpTo(ks, ws, odp, where, externs, a, |ws|) {
      var i :| 0 <= i < |ws| && Missing(ks, ws, odp, where, i) && Reloc(ExternOid(externs, ws[i]), a, SlotOf(ks, i)) == Reloc(oid, a, s);
      assert HoleFor(ks, ws, odp, where, externs, oid, i);
    }
    if 0 <= s < |ks| && ks[s] != VarType && HoleFor(ks, ws, odp, where, externs, oid, s) {
      assert SlotOf(ks, s) == s;
    }
    if 0 <= s < |ks| && ks[s] == VarData && HoleFor(ks, ws, odp, where, externs, oid, s + 1) {
      assert SlotOf(ks, s + 1) == s;
    }
  }

  /** Word `i` refers to the object of `oid`, which the VM has not got. */
  predicate HoleFor(ks: seq<Kind>, ws: seq<int>, odp: set<int>, where: map<int, int>, externs: map<int, int>, oid: int, i: int)
    requires |ws| == |ks|
  {
    0 <= i < |ks| && Missing(ks, ws, odp, where, i) && ExternOid(externs, ws[i]) == oid
  }

  /** A reference that the VM has not got is NIL after translation; it is
      registered under its own slot if and only if it is no variable's type. */
  lemma HoleRegistered(ty: StreamTypes, o: Obj, a: int, where: map<int, int>, externs: map<int, int>, n: int, i: int)
    requires Readable(ty, o, n) && o.resident && a != NIL && (forall j :: j in where <==> 0 <= j < n)
    requires 0 <= i < |o.words| == |KindsIn(ty, o)| && IsRef(KindsIn(ty, o), o.words, ty.odp, i)
    ensures var ks, new' := KindsIn(ty, o), Translated(ty, o, where).words;
            && |new'| == |o.words|
            && (Missing(ks, o.words, ty.odp, where, i) <==> o.words[i] != NIL && new'[i] == NIL)
            && (Missing(ks, o.words, ty.odp, where, i) ==>
                  (Reloc(ExternOid(externs, o.words[i]), a, i) in RelocsOf(ty, o, a, where, externs) <==> ks[i] != VarType))
  {
    hide Layout;
    RegisteredSlots(ty, o, a, where, externs, ExternOid(externs, o.words[i]), i);
  }

  /** The assertion of interp_template holds: a variable whose type the VM has
      not got ends up without a datum. */
  predicate GoesOn(ks: seq<Kind>, ws: seq<int>, where: map<int, int>)
    requires |ws| == |ks|
  {
    forall i :: 0 <= i < |ks| - 1 && ks[i] == VarData && At(where, ws[i + 1]) == NIL ==> At(where, ws[i]) == NIL
  }

  /** A stream of three records: a type whose instances are one variable, a
      builtin that the VM has not got, and an instance whose variable has that
      builtin for its type and no datum.  The VM goes on, and what is registered
      is the slot of the datum and not that of the type. */
  lemma TypeMisplaced() returns (ty: StreamTypes, vm: Vm, rs: seq<Record>)
    ensures VmSound(vm) && StubsNamed(rs) && OidsOnce(rs) && |rs| == 3 && forall j :: 0 <= j < 3 ==> GoodRecord(ty, rs[j], 3)
    ensures rs[1].External? && rs[1].oid !in vm.oids && rs[2] == Whole(NOOID, 0, [NIL, 1])
    ensures var rd := ReadAll(vm, rs);
            && |rd.objects| == 3 && rd.objects[2] != NIL && rd.objects[2] in rd.notHosted && rd.objects[2] in rd.vm.heap
            && var o, a, where := rd.vm.heap[rd.objects[2]], rd.objects[2], Where(rd.objects, rd.externs, rd.vm.oids);
            && KindsIn(ty, o) == [VarData, VarType] && o.words == [NIL, 1] && GoesOn(KindsIn(ty, o), o.words, where)
            && Reloc(rs[1].oid, a, 0) in RelocsOf(ty, o, a, where, rd.externs)
            && Reloc(rs[1].oid, a, 1) !in RelocsOf(ty, o, a, where, rd.externs)
  {
    ty, vm := StreamTypes(map[0 := [Field(Vars, 1, false)]], {}), Vm(map[], 0, map[]);
    var type', builtin, instance := Whole(NOOID, 0, [NIL, NIL]), External(7), Whole(NOOID, 0, [NIL, 1]);
    rs := [type', builtin, instance];
    VariableGood(ty, [NIL, NIL]);
    VariableGood(ty, [NIL, 1]);
    hide Layout, RelocsOf, Where, GoodRecord, KindsIn;
    var rd := ThreeRead(vm, type', builtin, instance);
    WhereAt(rd.objects, rd.externs, rd.vm.oids);
    Misplaced(ty, Raw(instance), Where(rd.objects, rd.externs, rd.vm.oids), rd.externs);
  }

  /** A variable without a datum whose type is at position 1. */
  lemma VariableGood(ty: StreamTypes, ws: seq<int>)
    requires ty == StreamTypes(map[0 := [Field(Vars, 1, false)]], {}) && (ws == [NIL, NIL] || ws == [NIL, 1])
    ensures KindsIn(ty, Raw(Whole(NOOID, 0, ws))) == [VarData, VarType] && GoodRecord(ty, Whole(NOOID, 0, ws), 3)
  {
    VariableLayout(ws);
    hide Layout;
  }

  lemma Misplaced(ty: StreamTypes, o: Obj, where: map<int, int>, externs: map<int, int>)
    requires ty == StreamTypes(map[0 := [Field(Vars, 1, false)]], {}) && o == Raw(Whole(NOOID, 0, [NIL, 1])) && externs == map[1 := 7]
    requires At(where, 1) == NIL && At(where, NIL) == NIL
    ensures KindsIn(ty, o) == [VarData, VarType] && GoesOn(KindsIn(ty, o), o.words, where)
    ensures Reloc(7, 1, 0) in RelocsOf(ty, o, 1, where, externs) && Reloc(7, 1, 1) !in RelocsOf(ty, o, 1, where, externs)
  {
    VariableLayout([NIL, 1]);
    hide Layout, RelocsOf;
    assert HoleFor([VarData, VarType], o.words, ty.odp, where, externs, 7, 1);
    RegisteredSlots(ty, o, 1, where, externs, 7, 0);
    RegisteredSlots(ty, o, 1, where, externs, 7, 1);
  }

  lemma WhereAt(objects: seq<int>, externs: map<int, int>, oids: map<int, int>)
    ensures forall j :: At(Where(objects, externs, oids), j)
                     == if 0 <= j < |objects| then (if objects[j] != NIL then objects[j] else if j in externs && externs[j] in oids then oids[externs[j]] else NIL) else NIL
  {
  }

  /** Two objects without identifiers, and a builtin between them, are read. */
  lemma ThreeRead(vm: Vm, r0: Record, r1: Record, r2: Record) returns (rd: Reading)
    requires vm == Vm(map[], 0, map[]) && r0.Whole? && r0.oid == NOOID && r1.External? && r2.Whole? && r2.oid == NOOID
    ensures rd == ReadAll(vm, [r0, r1, r2])
    ensures rd.objects == [0, NIL, 1] && rd.externs == map[1 := r1.oid] && rd.notHosted == {0, 1}
    ensures rd.vm.oids == map[] && 1 in rd.vm.heap && rd.vm.heap[1] == Raw(r2)
  {
    var rs := [r0, r1, r2];
    ReadAllNext(vm, rs, 0);
    ReadAllNext(vm, rs, 1);
    ReadAllNext(vm, rs, 2);
    assert rs[..0] == [] && rs[..3] == rs;
    hide Raw;
    rd := ReadAll(vm, rs);
  }

  lemma VariableLayout(ws: seq<int>)
    requires |ws| == 2
    ensures Layout([Field(Vars, 1, false)], ws) == Some([VarData, VarType])
  {
    var t := [Field(Vars, 1, false)];
    assert t[1..] == [] && ws[2..] == [];
    assert Layout(t[1..], ws[2..]) == Some([]);
    var ks := Kinds(t[0], 1);
    assert |ks| == 2 && ks[0] == VarData && ks[1] == VarType;
    assert ks + [] == [VarData, VarType];
  }

  // ----- repairing -----

  /** The words of the object at `a` when the object of `oid` has turned up at `b`. */
  function Repaired(ws: seq<int>, pending: set<Reloc>, oid: int, a: int, b: int): (r: seq<int>)
    ensures |r| == |ws|
  {
    seq(|ws|, i requires 0 <= i < |ws| => if Reloc(oid, a, i) in pending then b else ws[i])
  }

  /** Where everything would be if the VM had had the object of `oid`, at `b`. */
  function Known(where: map<int, int>, externs: map<int, int>, oid: int, b: int): map<int, int> {
    map j | j in where :: if where[j] == NIL && ExternOid(externs, j) == oid then b else where[j]
  }

  /** That is where everything would be. */
  lemma KnownAtOnce(objects: seq<int>, externs: map<int, int>, oids: map<int, int>, oid: int, b: int)
    requires oid != NOOID && oid !in oids && forall x :: x in oids ==> oids[x] != NIL
    ensures Known(Where(objects, externs, oids), externs, oid, b) == Where(objects, externs, oids[oid := b])
  {
  }

  /** No variable's type is missing for want of the object of `oid`. */
  predicate NoTypeFor(ks: seq<Kind>, ws: seq<int>, odp: set<int>, where: map<int, int>, externs: map<int, int>, oid: int)
    requires |ws| == |ks|
  {
    forall i :: 0 <= i < |ks| && ks[i] == VarType ==> !HoleFor(ks, ws, odp, where, externs, oid, i)
  }

  /** Repairing an object later makes of it what translating it would have made
      if the VM had had the missing object at once, if and only if no type of a
      variable was missing for it. */
  lemma RepairedExactly(ty: StreamTypes, o: Obj, a: int, where: map<int, int>, externs: map<int, int>, n: int, oid: int, b: int)
    requires Readable(ty, o, n) && o.resident && (forall j :: j in where <==> 0 <= j < n) && a != NIL && b != NIL
    ensures |KindsIn(ty, o)| == |o.words|
    ensures Repaired(Translated(ty, o, where).words, RelocsOf(ty, o, a, where, externs), oid, a, b)
            == Translated(ty, o, Known(where, externs, oid, b)).words
       <==> NoTypeFor(KindsIn(ty, o), o.words, ty.odp, where, externs, oid)
  {
    LayoutPaired(TemplateAt(ty, o.ct), o.words);
    var ks, ws, relocs := KindsIn(ty, o), o.words, RelocsOf(ty, o, a, where, externs);
    var late, early := Repaired(Translated(ty, o, where).words, relocs, oid, a, b), Translated(ty, o, Known(where, externs, oid, b)).words;
    forall i | 0 <= i < |ws|
      ensures ks[i] == VarType && HoleFor(ks, ws, ty.odp, where, externs, oid, i) ==> late[i] == NIL && early[i] == b
      ensures ks[i] == VarType && !HoleFor(ks, ws, ty.odp, where, externs, oid, i) ==> late[i] == early[i]
      ensures ks[i] != VarType && NoTypeFor(ks, ws, ty.odp, where, externs, oid) ==> late[i] == early[i]
    {
      hide Layout, RelocsOf, Paired;
      RegisteredSlots(ty, o, a, where, externs, oid, i);
      RepairedWord(ks, ws, ty.odp, where, externs, oid, b, i);
    }
    hide Layout, RelocsOf, Replace, Known;
    if NoTypeFor(ks, ws, ty.odp, where, externs, oid) {
      assert late == early;
    } else {
      var i :| 0 <= i < |ks| && ks[i] == VarType && HoleFor(ks, ws, ty.odp, where, externs, oid, i);
      assert late[i] != early[i];
    }
  }

  lemma RepairedWord(ks: seq<Kind>, ws: seq<int>, odp: set<int>, where: map<int, int>, externs: map<int, int>, oid: int, b: int, i: int)
    requires 0 <= i < |ks| == |ws|
    requires IsRef(ks, ws, odp, i) ==> ws[i] == NIL || ws[i] in where
    ensures var new', known := Replace(ks, ws, odp, where)[i], Replace(ks, ws, odp, Known(where, externs, oid, b))[i];
            if HoleFor(ks, ws, odp, where, externs, oid, i) then new' == NIL && known == b else known == new'
  {
    hide IsRef;
  }

  /** What is registered for the object at `a` among all that is. */
  lemma OwnRegistered(ty: StreamTypes, heap: map<int, Obj>, made: set<int>, where: map<int, int>, externs: map<int, int>, pending: set<Reloc>, a: int, oid: int, i: int)
    requires Registered(ty, heap, made, where, externs, {}, pending) && a in made && a in heap && a != NIL
    ensures Reloc(oid, a, i) in pending <==> Reloc(oid, a, i) in RelocsOf(ty, heap[a], a, where, externs)
  {
    hide Missing;
  }

  /** After a stream has been read, repairing an object it made is as good as
      having had the missing object, if and only if no type of a variable of it
      is missing. */
  lemma LateAsEarly(ty: StreamTypes, heap: map<int, Obj>, objects: seq<int>, made: set<int>, where: map<int, int>, externs: map<int, int>,
                    pending: set<Reloc>, a: int, oid: int, b: int)
    requires AllReadable(ty, heap, objects, made, |objects|) && (forall j :: j in where <==> 0 <= j < |objects|)
    requires Registered(ty, heap, made, where, externs, {}, pending) && a in made && heap[a].resident && b != NIL
    ensures |KindsIn(ty, heap[a])| == |heap[a].words|
    ensures Repaired(Translated(ty, heap[a], where).words, pending, oid, a, b) == Translated(ty, heap[a], Known(where, externs, oid, b)).words
       <==> NoTypeFor(KindsIn(ty, heap[a]), heap[a].words, ty.odp, where, externs, oid)
  {
    hide Readable, Registered, Translated, RelocsOf, NoTypeFor, KindsIn, Known;
    RepairedExactly(ty, heap[a], a, where, externs, |objects|, oid, b);
    var ws, relocs := Translated(ty, heap[a], where).words, RelocsOf(ty, heap[a], a, where, externs);
    forall i | 0 <= i < |ws|
      ensures Reloc(oid, a, i) in pending <==> Reloc(oid, a, i) in relocs
    {
      OwnRegistered(ty, heap, made, where, externs, pending, a, oid, i);
    }
    assert Repaired(ws, pending, oid, a, b) == Repaired(ws, relocs, oid, a, b);
  }

  /** What is registered for an identifier are slots of objects. */
  ghost predicate Repairable(heap: map<int, Obj>, pending: set<Reloc>, oid: int) {
    forall r :: r in pending && r.oid == oid ==> r.within in heap && 0 <= r.offset < |heap[r.within].words|
  }

  /** The slots registered in `pending` for `oid` hold `b`, and nothing else has changed. */
  ghost predicate RepairedHeap(heap0: map<int, Obj>, heap: map<int, Obj>, pending: set<Reloc>, oid: int, b: int) {
    heap.Keys == heap0.Keys && forall a :: a in heap ==> heap[a] == heap0[a].(words := Repaired(heap0[a].words, pending, oid, a, b))
  }

  lemma RepairedNone(heap: map<int, Obj>, oid: int, b: int)
    ensures RepairedHeap(heap, heap, {}, oid, b)
  {
    forall a | a in heap
      ensures Repaired(heap[a].words, {}, oid, a, b) == heap[a].words
    {
    }
  }

  lemma RepairedNext(heap0: map<int, Obj>, heap: map<int, Obj>, done: set<Reloc>, oid: int, b: int, r: Reloc)
    requires RepairedHeap(heap0, heap, done, oid, b) && r.oid == oid && r.within in heap && 0 <= r.offset < |heap[r.within].words|
    ensures var o := heap[r.within]; RepairedHeap(heap0, heap[r.within := o.(words := o.words[r.offset := b])], done + {r}, oid, b)
  {
    var o := heap[r.within];
    var heap' := heap[r.within := o.(words := o.words[r.offset := b])];
    assert heap'.Keys == heap0.Keys;
    forall a | a in heap'
      ensures heap'[a] == heap0[a].(words := Repaired(heap0[a].words, done + {r}, oid, a, b))
    {
      assert a in heap;
      var ws := Repaired(heap0[a].words, done, oid, a, b);
      assert Repaired(heap0[a].words, done + {r}, oid, a, b) == if a == r.within then ws[r.offset := b] else ws;
    }
  }

  class Reader {
    const types: StreamTypes
    var heap: map<int, Obj>
    var next: int
    var oids: map<int, int>
    var objects: seq<int>
    var externs: map<int, int>
    var notHosted: set<int>
    var pending: set<Reloc>

    constructor (types: StreamTypes, vm: Vm)
      ensures this.types == types && heap == vm.heap && next == vm.next && oids == vm.oids && pending == {}
    {
      this.types, heap, next, oids := types, vm.heap, vm.next, vm.oids;
      objects, externs, notHosted, pending := [], map[], {}, {};
    }

    ghost function Now(): Reading
      reads this
    {
      Reading(Here(), objects, externs, notHosted)
    }

    ghost function Here(): Vm
      reads this
    {
      Vm(heap, next, oids)
    }

    /** OIDFetch. */
    function OidFetch(oid: int): int
      reads this
    {
      if oid in oids then oids[oid] else NIL
    }

    /** An object of `n` words is allocated. */
    method Allocate(o: Obj) returns (a: int)
      modifies this`heap, this`next
      ensures a == old(next) && next == a + 1 && heap == old(heap)[a := o]
    {
      a := next;
      next := next + 1;
      heap := heap[a := o];
    }

    /** ReadTheCheckpointStream: the records of the stream become objects, whose
        types and references are still positions. */
    method ReadTheCheckpointStream(ts: seq<Token>, ghost rs: seq<Record>)
      requires VmSound(Here()) && ts == Flatten(rs) && StubsNamed(rs)
      modifies this`heap, this`next, this`oids, this`objects, this`externs, this`notHosted
      ensures Now() == ReadAll(old(Here()), rs) && VmSound(Here()) && |objects| == |rs|
      ensures OidsOnce(rs) ==> ReadUpTo(old(Here()), Here(), objects, externs, notHosted, rs, |rs|)
                               && PresentKept(old(Here()), Here(), objects, rs, |rs|)
    {
      hide Flatten, ReadUpTo, PresentKept, VmSound, Tokens, OidsOnce, Entered;
      ghost var vm0 := Here();
      objects, externs, notHosted := [], map[], {};
      var at := 0;
      assert rs[0..] == rs && ts[0..] == ts;
      while at < |ts|
        invariant 0 <= at <= |ts| && |objects| <= |rs| && ts[at..] == Flatten(rs[|objects|..])
        invariant VmSound(Here()) && Now() == ReadAll(vm0, rs[..|objects|])
        decreases |ts| - at
      {
        NextRecord(ts, at, rs, |objects|);
        ReadAllNext(vm0, rs, |objects|);
        at := ReadRecord(ts, at, rs[|objects|]);
      }
      LastRecord(ts, at, rs, |objects|);
      assert rs[..|rs|] == rs;
      if OidsOnce(rs) {
        ReadOnce(vm0, rs, |rs|);
      }
    }

    static lemma NextRecord(ts: seq<Token>, at: int, rs: seq<Record>, n: nat)
      requires 0 <= at < |ts| && n <= |rs| && ts[at..] == Flatten(rs[n..])
      ensures n < |rs| && var k := |Tokens(rs[n])|;
              at + k <= |ts| && k > 0 && ts[at..at + k] == Tokens(rs[n]) && ts[at + k..] == Flatten(rs[n + 1..])
    {
      hide Tokens;
      var rest := rs[n..];
      assert rest != [];
      var k := |Tokens(rs[n])|;
      assert rest[0] == rs[n] && rest[1..] == rs[n + 1..];
      assert ts[at..] == Tokens(rs[n]) + Flatten(rs[n + 1..]);
      assert ts[at..at + k] == ts[at..][..k];
      assert ts[at + k..] == ts[at..][k..];
    }

    static lemma LastRecord(ts: seq<Token>, at: int, rs: seq<Record>, n: nat)
      requires at == |ts| && n <= |rs| && ts[at..] == Flatten(rs[n..])
      ensures n == |rs|
    {
      FlattenSome(rs[n..]);
      assert ts[at..] == [];
    }

    static lemma FlattenSome(rs: seq<Record>)
      ensures rs != [] ==> Flatten(rs) != []
    {
      hide Tokens;
      if rs != [] {
        assert Tokens(rs[0]) != [];
      }
    }

    /** One record of the stream. */
    method ReadRecord(ts: seq<Token>, at: int, ghost r: Record) returns (next': int)
      requires 0 <= at && VmSound(Here()) && (r.StubOf? ==> r.oid != NOOID)
      requires at + |Tokens(r)| <= |ts| && ts[at..at + |Tokens(r)|] == Tokens(r)
      modifies this`heap, this`next, this`oids, this`objects, this`externs, this`notHosted
      ensures next' == at + |Tokens(r)| && Now() == Entered(old(Now()), r) && VmSound(Here()) && |objects| == old(|objects|) + 1
    {
      hide VmSound;
      ghost var rd := Now();
      TokenAt(ts, at, Tokens(r));
      EnteredSound(rd, r);
      SoundOids(rd.vm);
      match ts[at].s {
        case Extern =>
          assert ts[at + 0] == Tokens(r)[0] && ts[at + 1] == Tokens(r)[1];
          externs := externs[|objects| := ts[at + 1].id];
          objects := objects + [NIL];
          next' := at + 2;
        case Stub =>
          StubTokens(ts, at, r);
          ReadStub(ts[at + 1].id, ts[at + 2].n, ts[at + 3].n, ts[at + 4].srv);
          next' := at + 5;
        case WithoutID =>
          WordsAt(ts, at, r);
          var words := ReadWords(ts, at + 3, ts[at + 1].n / WORD - 1, r);
          ReadObject(NOOID, ts[at + 2].n, words);
          next' := at + 3 + |words|;
        case WithID =>
          WordsAt(ts, at, r);
          var words := ReadWords(ts, at + 4, (ts[at + 1].n - OIDSIZE) / WORD - 1, r);
          ReadObject(ts[at + 2].id, ts[at + 3].n, words);
          next' := at + 4 + |words|;
      }
    }

    static lemma SoundOids(vm: Vm)
      requires VmSound(vm)
      ensures NOOID !in vm.oids && forall x :: x in vm.oids ==> vm.oids[x] in vm.heap && vm.oids[x] != NIL
    {
    }

    static lemma StubTokens(ts: seq<Token>, at: int, r: Record)
      requires 0 <= at && at + |Tokens(r)| <= |ts| && forall i :: 0 <= i < |Tokens(r)| ==> ts[at + i] == Tokens(r)[i]
      requires ts[at] == Sig(Stub)
      ensures r.StubOf? && at + 5 <= |ts| && ts[at + 1] == Oid(r.oid) && ts[at + 2] == Num(WORD * (r.size + 1)) && ts[at + 3] == Num(r.ct)
      ensures ts[at + 4] == Node(r.srv) && (WORD * (r.size + 1)) / WORD - 1 == r.size
    {
      assert ts[at + 0] == Tokens(r)[0];
      assert ts[at + 1] == Tokens(r)[1] && ts[at + 2] == Tokens(r)[2] && ts[at + 3] == Tokens(r)[3] && ts[at + 4] == Tokens(r)[4];
    }

    static lemma WordsAt(ts: seq<Token>, at: int, r: Record)
      requires 0 <= at && at + |Tokens(r)| <= |ts| && forall i :: 0 <= i < |Tokens(r)| ==> ts[at + i] == Tokens(r)[i]
      requires ts[at] == Sig(WithID) || ts[at] == Sig(WithoutID)
      ensures r.Whole? && (r.oid == NOOID <==> ts[at] == Sig(WithoutID))
      ensures var h := if r.oid == NOOID then 3 else 4;
              && at + h + |r.words| <= |ts| && ts[at + h - 1] == Num(r.ct)
              && ts[at + 1] == Num(WORD * (|r.words| + 1) + (if r.oid == NOOID then 0 else OIDSIZE))
              && (r.oid != NOOID ==> ts[at + 2] == Oid(r.oid))
              && forall i :: 0 <= i < |r.words| ==> ts[at + h + i] == Num(r.words[i])
    {
      var h := if r.oid == NOOID then 3 else 4;
      assert |Tokens(r)| == h + |r.words|;
      forall i | 0 <= i < |r.words|
        ensures ts[at + h + i] == Num(r.words[i])
      {
        assert ts[at + (h + i)] == Tokens(r)[h + i];
      }
      assert ts[at + 1] == Tokens(r)[1] && ts[at + 2] == Tokens(r)[2] && ts[at + (h - 1)] == Tokens(r)[h - 1];
    }

    static lemma TokenAt(ts: seq<Token>, at: int, tokens: seq<Token>)
      requires 0 <= at && at + |tokens| <= |ts| && ts[at..at + |tokens|] == tokens
      ensures forall i :: 0 <= i < |tokens| ==> ts[at + i] == tokens[i]
    {
      forall i | 0 <= i < |tokens|
        ensures ts[at + i] == tokens[i]
      {
        assert ts[at..at + |tokens|][i] == ts[at + i];
      }
    }

    /** A stub: the object is made unless the VM knows it. */
    method ReadStub(oid: int, length: int, ct: int, srv: int)
      requires length >= WORD && (oid in oids ==> oids[oid] in heap && oids[oid] != NIL)
      modifies this`heap, this`next, this`oids, this`objects, this`externs, this`notHosted
      ensures objects == old(objects) + [if oid in old(oids) then old(oids)[oid] else old(next)]
      ensures externs == old(externs)
      ensures notHosted == old(notHosted) + (if oid in old(oids) then {} else {old(next)})
      ensures oid in old(oids) ==> next == old(next) && oids == old(oids)
                                   && heap == old(heap)[oids[oid] := Relocated(old(heap)[oids[oid]], srv)]
      ensures oid !in old(oids) ==> next == old(next) + 1 && oids == old(oids)[oid := old(next)]
                                    && heap == old(heap)[old(next) := Obj(oid, false, false, ct, Blank(length / WORD - 1), srv)]
    {
      var o := OidFetch(oid);
      if o == NIL {
        o := Allocate(Obj(oid, false, false, ct, Blank(length / WORD - 1), srv));
        notHosted := notHosted + {o};
        oids := oids[oid := o];
      } else {
        heap := heap[o := Relocated(heap[o], srv)];
      }
      objects := objects + [o];
    }

    /** An object: in the place of the one the VM knows by its OID, if any. */
    method ReadObject(oid: int, ct: int, words: seq<int>)
      requires oid in oids ==> oids[oid] in heap && oids[oid] != NIL
      requires NOOID !in oids
      modifies this`heap, this`next, this`oids, this`objects, this`externs, this`notHosted
      ensures var a := if oid in old(oids) then old(oids)[oid] else old(next);
              && objects == old(objects) + [a] && externs == old(externs) && notHosted == old(notHosted) + {a}
              && heap == old(heap)[a := Obj(oid, false, true, ct, words, 0)]
              && next == (if oid in old(oids) then old(next) else old(next) + 1)
              && oids == (if oid in old(oids) || oid == NOOID then old(oids) else old(oids)[oid := a])
    {
      var o := if oid != NOOID then OidFetch(oid) else NIL;
      if o == NIL {
        o := Allocate(Obj(oid, false, true, ct, words, 0));
        if oid != NOOID {
          oids := oids[oid := o];
        }
      } else {
        heap := heap[o := Obj(oid, false, true, ct, words, 0)];
      }
      notHosted := notHosted + {o};
      objects := objects + [o];
    }

    /** The words of an object, as they are. */
    method ReadWords(ts: seq<Token>, at: int, n: int, ghost r: Record) returns (words: seq<int>)
      requires 0 <= at && 0 <= n && at + n <= |ts| && r.Whole? && n == |r.words|
      requires forall i :: 0 <= i < n ==> ts[at + i] == Num(r.words[i])
      ensures words == r.words
    {
      words := [];
      while |words| < n
        invariant |words| <= n && words == r.words[..|words|]
        decreases n - |words|
      {
        assert ts[at + |words|] == Num(r.words[|words|]);
        assert r.words[..|words| + 1] == r.words[..|words|] + [r.words[|words|]];
        words := words + [ts[at + |words|].n];
      }
    }

    // ----- translating -----

    /** indexToObject: what the VM has not got is registered, for slot `offset`
        of `within`. */
    method IndexToObject(index: int, within: int, offset: int) returns (o: int)
      requires index == NIL || 0 <= index < |objects|
      modifies this`pending
      ensures o == if index == NIL then NIL else Where(objects, externs, oids)[index]
      ensures pending == old(pending) + (if index != NIL && o == NIL then {Reloc(ExternOid(externs, index), within, offset)} else {})
    {
      if index == NIL {
        return NIL;
      }
      o := objects[index];
      if o == NIL {
        if index in externs {
          o := OidFetch(externs[index]);
        }
        if o == NIL {
          pending := pending + {Reloc(ExternOid(externs, index), within, offset)};
        }
      }
    }

    /** translateTheCheckpointArray: the types and references of every object
        made become objects. */
    method TranslateTheCheckpointArray()
      requires AllReadable(types, heap, objects, notHosted, |objects|)
      modifies this`heap, this`notHosted, this`pending
      ensures TranslatedAll(types, old(heap), heap, old(notHosted), Where(objects, externs, oids)) && notHosted == {}
      ensures Registered(types, old(heap), old(notHosted), Where(objects, externs, oids), externs, old(pending), pending)
    {
      hide Readable, Translated, Where, Layout, RelocsOf;
      ghost var heap0, waiting, where := heap, notHosted, Where(objects, externs, oids);
      ghost var done: set<int> := {};
      assert forall a :: a in waiting ==> a in objects;
      var i := 0;
      while i < |objects|
        invariant 0 <= i <= |objects| && done <= waiting && notHosted == waiting - done
        invariant forall a :: a in waiting && a in objects[..i] ==> a in done
        invariant TranslatedAll(types, heap0, heap, done, where)
        invariant Registered(types, heap0, done, where, externs, old(pending), pending)
      {
        var o := objects[i];
        assert objects[..i + 1] == objects[..i] + [o];
        if o != NIL && o in notHosted {
          assert o in heap0.Keys;
          assert heap[o] == heap0[o];
          ghost var heap1, pending1 := heap, pending;
          TranslateOneObject(o);
          OneMoreTranslated(types, heap0, heap1, heap, done, where, o);
          OneMoreRegistered(types, heap0, done, where, externs, old(pending), pending1, pending, o);
          done := done + {o};
        }
        i := i + 1;
      }
      assert objects[..|objects|] == objects;
      forall a | a in waiting
        ensures a in done
      {
        assert a in objects[..i];
      }
      assert done == waiting;
    }

    static lemma OneMoreTranslated(ty: StreamTypes, heap0: map<int, Obj>, heap1: map<int, Obj>, heap: map<int, Obj>, done: set<int>, where: map<int, int>, o: int)
      requires TranslatedAll(ty, heap0, heap1, done, where) && o in heap0 && heap == heap1[o := Translated(ty, heap0[o], where)]
      ensures TranslatedAll(ty, heap0, heap, done + {o}, where)
    {
      hide Translated;
      assert o in heap1.Keys;
    }

    static lemma OneMoreRegistered(ty: StreamTypes, heap0: map<int, Obj>, done: set<int>, where: map<int, int>, externs: map<int, int>,
                                   pending0: set<Reloc>, pending1: set<Reloc>, pending: set<Reloc>, o: int)
      requires Registered(ty, heap0, done, where, externs, pending0, pending1) && o in heap0
      requires pending == pending1 + RelocsOf(ty, heap0[o], o, where, externs)
      ensures Registered(ty, heap0, done + {o}, where, externs, pending0, pending)
    {
      hide RelocsOf;
      forall r
        ensures r in pending <==> r in pending0 || exists a :: a in done + {o} && a in heap0 && r in RelocsOf(ty, heap0[a], a, where, externs)
      {
        if r in RelocsOf(ty, heap0[o], o, where, externs) {
          assert o in done + {o};
        } else if r in pending1 && r !in pending0 {
          var a :| a in done && a in heap0 && r in RelocsOf(ty, heap0[a], a, where, externs);
          assert a in done + {o};
        }
      }
    }

    /** translateOneObject. */
    method TranslateOneObject(o: int)
      requires o in notHosted && o in heap && Readable(types, heap[o], |objects|)
      modifies this`heap, this`notHosted, this`pending
      ensures notHosted == old(notHosted) - {o}
      ensures heap == old(heap)[o := Translated(types, old(heap)[o], Where(objects, externs, oids))]
      ensures pending == old(pending) + RelocsOf(types, old(heap)[o], o, Where(objects, externs, oids), externs)
    {
      hide Layout, Where, RelocsUpTo, ExternOid;
      notHosted := notHosted - {o};
      var ob := heap[o];
      var ct := IndexToObject(ob.ct, NIL, 0);
      WhereHas(objects, externs, oids);
      if ob.resident {
        var words := InterpTemplate(ob, o);
        heap := heap[o := ob.(ct := ct, words := words)];
      } else {
        heap := heap[o := ob.(ct := ct)];
      }
    }

    static lemma WhereHas(objects: seq<int>, externs: map<int, int>, oids: map<int, int>)
      ensures forall j :: j in Where(objects, externs, oids) <==> 0 <= j < |objects|
    {
    }

    /** interp_template: the words of an object, field by field. */
    method InterpTemplate(ob: Obj, o: int) returns (words: seq<int>)
      requires ob.resident && Readable(types, ob, |objects|)
      modifies this`pending
      ensures |KindsIn(types, ob)| == |ob.words|
      ensures words == Replace(KindsIn(types, ob), ob.words, types.odp, Where(objects, externs, oids))
      ensures pending == old(pending) + RelocsUpTo(KindsIn(types, ob), ob.words, types.odp, Where(objects, externs, oids), externs, o, |ob.words|)
    {
      hide Layout, Where, RelocsUpTo, ExternOid;
      var ks, p := KindsIn(types, ob), ob.words;
      LayoutPaired(TemplateAt(types, ob.ct), ob.words);
      WhereHas(objects, externs, oids);
      ghost var where := Where(objects, externs, oids);
      ghost var all := Replace(ks, p, types.odp, where);
      hide Replace, Readable, KindsIn;
      words := [];
      NoRelocs(ks, p, types.odp, where, externs, o);
      while |words| < |ks|
        invariant |words| <= |ks| == |p| == |all| && words == all[..|words|]
        invariant pending == old(pending) + RelocsUpTo(ks, p, types.odp, where, externs, o, |words|)
        decreases |ks| - |words|
      {
        var i := |words|;
        var w := InterpWord(ob, o, ks, p, i);
        RelocsNext(ks, p, types.odp, where, externs, o, i);
        assert all[..i + 1] == all[..i] + [all[i]];
        words := words + [w];
      }
    }

    static lemma NoRelocs(ks: seq<Kind>, ws: seq<int>, odp: set<int>, where: map<int, int>, externs: map<int, int>, a: int)
      requires |ws| == |ks|
      ensures RelocsUpTo(ks, ws, odp, where, externs, a, 0) == {}
    {
    }

    /** One word of an object. */
    method InterpWord(ob: Obj, o: int, ks: seq<Kind>, p: seq<int>, i: int) returns (w: int)
      requires ob.resident && Readable(types, ob, |objects|) && ks == KindsIn(types, ob) && p == ob.words && 0 <= i < |ks| == |p| && Paired(ks)
      modifies this`pending
      ensures w == Replace(ks, p, types.odp, Where(objects, externs, oids))[i]
      ensures pending == old(pending) + (if Missing(ks, p, types.odp, Where(objects, externs, oids), i) then {Reloc(ExternOid(externs, p[i]), o, SlotOf(ks, i))} else {})
    {
      hide Layout, Where, ExternOid;
      WhereHas(objects, externs, oids);
      w := p[i];
      match ks[i] {
        case Plain =>
        case Pointer => w := IndexToObject(w, o, i);
        case VarData =>
          if p[i + 1] == NIL || p[i + 1] in types.odp {
            w := IndexToObject(w, o, i);
          }
        case VarType => w := IndexToObject(w, o, i - 1);
      }
    }

    /** UpdateOIDTables for an object that turns up after the stream has been
        read: what is registered for its identifier is repaired. */
    method UpdateOid(oid: int, o: int)
      requires VmSound(Here()) && oid != NOOID && oid !in oids && o in heap && (forall x :: x in oids ==> oids[x] != o)
      requires Repairable(heap, pending, oid)
      modifies this`heap, this`oids, this`pending
      ensures VmSound(Here()) && oids == old(oids)[oid := o]
      ensures RepairedHeap(old(heap), heap, old(pending), oid, o)
      ensures heap.Keys == old(heap).Keys && forall a :: a in heap ==> |heap[a].words| == |old(heap)[a].words|
      ensures forall a, i :: a in heap && 0 <= i < |heap[a].words| ==>
                heap[a].words[i] == if Reloc(oid, a, i) in old(pending) then o else old(heap)[a].words[i]
      ensures forall a :: a in heap ==> heap[a] == old(heap)[a].(words := heap[a].words)
      ensures forall r :: r in pending <==> r in old(pending) && r.oid != oid
    {
      hide Repaired;
      oids := oids[oid := o];
      ghost var heap0, all, done := heap, pending, {};
      var todo := set r | r in pending && r.oid == oid;
      ghost var mine := todo;
      RepairedNone(heap, oid, o);
      while todo != {}
        invariant done + todo == mine && done !! todo && RepairedHeap(heap0, heap, done, oid, o) && oids == old(oids)[oid := o]
        invariant pending == all - done
      {
        var r :| r in todo;
        RepairedNext(heap0, heap, done, oid, o, r);
        RepairedSize(heap0, heap, done, oid, o, r.within);
        heap := heap[r.within := heap[r.within].(words := heap[r.within].words[r.offset := o])];
        todo, done, pending := todo - {r}, done + {r}, pending - {r};
      }
      RepairedSame(heap0, heap, mine, all, oid, o);
      RepairedMeans(heap0, heap, all, oid, o);
    }

    static lemma RepairedMeans(heap0: map<int, Obj>, heap: map<int, Obj>, pending: set<Reloc>, oid: int, b: int)
      requires RepairedHeap(heap0, heap, pending, oid, b)
      ensures heap.Keys == heap0.Keys && forall a :: a in heap ==> |heap[a].words| == |heap0[a].words|
      ensures forall a, i :: a in heap && 0 <= i < |heap[a].words| ==>
                heap[a].words[i] == if Reloc(oid, a, i) in pending then b else heap0[a].words[i]
      ensures forall a :: a in heap ==> heap[a] == heap0[a].(words := heap[a].words)
    {
    }

    static lemma RepairedSize(heap0: map<int, Obj>, heap: map<int, Obj>, done: set<Reloc>, oid: int, b: int, a: int)
      requires RepairedHeap(heap0, heap, done, oid, b) && a in heap0
      ensures a in heap && |heap[a].words| == |heap0[a].words|
    {
      assert a in heap.Keys;
    }

    /** Only what is registered for the identifier matters. */
    static lemma RepairedSame(heap0: map<int, Obj>, heap: map<int, Obj>, mine: set<Reloc>, all: set<Reloc>, oid: int, b: int)
      requires RepairedHeap(heap0, heap, mine, oid, b) && forall r :: r in mine <==> r in all && r.oid == oid
      ensures RepairedHeap(heap0, heap, all, oid, b)
    {
      forall a | a in heap
        ensures Repaired(heap0[a].words, all, oid, a, b) == Repaired(heap0[a].words, mine, oid, a, b)
      {
      }
    }

    /** Reading and translating a whole stream. */
    method ReadCheckpoint(ts: seq<Token>, ghost rs: seq<Record>)
      requires VmSound(Here()) && ts == Flatten(rs) && StubsNamed(rs)
      requires forall j :: 0 <= j < |rs| ==> GoodRecord(types, rs[j], |rs|)
      modifies this
      ensures var rd := ReadAll(old(Here()), rs);
              && objects == rd.objects && externs == rd.externs && oids == rd.vm.oids
              && TranslatedAll(types, rd.vm.heap, heap, rd.notHosted, Where(objects, externs, oids))
              && Registered(types, rd.vm.heap, rd.notHosted, Where(objects, externs, oids), externs, old(pending), pending)
      ensures VmSound(Here()) && RecordsNamed(oids, objects, rs)
      ensures forall x :: x in old(oids) ==> x in oids && oids[x] == old(oids)[x]
      ensures OidsOnce(rs) ==> Restored(types, old(Here()), heap, oids, objects, externs, rs)
    {
      hide Flatten, ReadUpTo, PresentKept, VmSound, OidsOnce, GoodRecord, TranslatedAll, Registered, Restored, Where, AllReadable, ReadAll, StubsNamed,
           Naming, RecordsNamed;
      ghost var vm0 := Here();
      AllRead(types, vm0, rs, |rs|);
      assert rs[..|rs|] == rs;
      ReadTheCheckpointStream(ts, rs);
      SameOidSameObject(vm0, rs, |rs|);
      ghost var vm1, made := Here(), notHosted;
      NamingRecords(Now(), rs);
      TranslateTheCheckpointArray();
      SoundStill(vm1, heap) by {
        TranslatedKeys(types, vm1.heap, heap, made, Where(objects, externs, oids));
      }
      if OidsOnce(rs) {
        ReadNames(vm0, vm1, objects, externs, made, rs);
        AllRestored(types, vm0, vm1, heap, objects, externs, made, rs);
      }
    }
  }

  lemma TranslatedKeys(ty: StreamTypes, heap0: map<int, Obj>, heap: map<int, Obj>, made: set<int>, where: map<int, int>)
    requires TranslatedAll(ty, heap0, heap, made, where)
    ensures heap.Keys == heap0.Keys
  {
  }

  /** Whether a VM is sound depends only on where its objects are. */
  lemma SoundStill(vm: Vm, heap: map<int, Obj>)
    requires VmSound(vm) && heap.Keys == vm.heap.Keys
    ensures VmSound(vm.(heap := heap))
  {
    assert forall a :: a in heap ==> a in vm.heap.Keys;
    assert forall a :: a in vm.heap ==> a in heap.Keys;
  }

  /** Identifiers of records name the objects read. */
  ghost predicate RecordsNamed(oids: map<int, int>, objects: seq<int>, rs: seq<Record>) {
    |objects| == |rs| && forall j :: 0 <= j < |rs| && OidOf(rs[j]) != NOOID ==> OidOf(rs[j]) in oids && oids[OidOf(rs[j])] == objects[j]
  }

  lemma NamingRecords(rd: Reading, rs: seq<Record>)
    requires Naming(rd, rs, |rs|)
    ensures RecordsNamed(rd.vm.oids, rd.objects, rs)
  {
  }

  /** Different identifiers name different objects, each the one it named before
      or that of its record. */
  ghost predicate NamesRead(vm0: Vm, oids: map<int, int>, objects: seq<int>, rs: seq<Record>) {
    && RecordsNamed(oids, objects, rs)
    && (forall x, z :: x in oids && z in oids && x != z ==> oids[x] != oids[z])
    && (forall x :: x in oids ==> NameKnown(vm0, oids, objects, rs, x))
  }

  ghost predicate NameKnown(vm0: Vm, oids: map<int, int>, objects: seq<int>, rs: seq<Record>, x: int) {
    x in oids && ((x in vm0.oids && oids[x] == vm0.oids[x])
                  || exists j :: 0 <= j < |objects| && j < |rs| && OidOf(rs[j]) == x && objects[j] == oids[x])
  }

  /** What reading a stream has achieved. */
  ghost predicate Restored(ty: StreamTypes, vm0: Vm, heap: map<int, Obj>, oids: map<int, int>, objects: seq<int>, externs: map<int, int>, rs: seq<Record>) {
    && NamesRead(vm0, oids, objects, rs)
    && |objects| == |rs| && (forall x :: x in vm0.oids ==> x in oids && oids[x] == vm0.oids[x])
    && (forall i, j :: 0 <= i < j < |rs| && objects[i] != NIL ==> objects[i] != objects[j])
    && (forall j :: 0 <= j < |rs| ==> Made(ty, vm0, heap, oids, objects, externs, rs, j))
    && (forall a :: a in vm0.heap && a !in objects ==> a in heap && heap[a] == vm0.heap[a])
  }

  /** What has become of the `j`th record. */
  ghost predicate Made(ty: StreamTypes, vm0: Vm, heap: map<int, Obj>, oids: map<int, int>, objects: seq<int>, externs: map<int, int>, rs: seq<Record>, j: int)
    requires 0 <= j < |rs| == |objects|
  {
    var a := objects[j];
    match rs[j]
    case External(oid) => a == NIL && j in externs && externs[j] == oid
    case StubOf(oid, size, ct, srv) =>
      if Present(vm0, rs[j]) then a == vm0.oids[oid] && a in heap && a in vm0.heap && heap[a] == Relocated(vm0.heap[a], srv)
      else a >= vm0.next && a in heap && heap[a] == Translated(ty, Raw(rs[j]), Where(objects, externs, oids))
    case Whole(oid, ct, words) =>
      (if Present(vm0, rs[j]) then a == vm0.oids[oid] else a >= vm0.next)
      && a in heap && heap[a] == Translated(ty, Raw(rs[j]), Where(objects, externs, oids))
  }

  /** Just the objects made from records are waiting to be translated. */
  lemma WaitingMade(vm0: Vm, vm: Vm, objects: seq<int>, externs: map<int, int>, notHosted: set<int>, rs: seq<Record>, j: int)
    requires ReadUpTo(vm0, vm, objects, externs, notHosted, rs, |rs|) && 0 <= j < |rs|
    ensures Fresh(vm0, rs[j]) ==> objects[j] in vm.heap && objects[j] != NIL && vm.heap[objects[j]] == Raw(rs[j])
    ensures Fresh(vm0, rs[j]) <==> objects[j] in notHosted
  {
    assert ReadAs(vm0, vm.heap, objects[j], externs, j, rs[j]);
    if Fresh(vm0, rs[j]) {
      assert MadeHere(vm0, objects, rs, objects[j]);
    }
    if objects[j] in notHosted {
      var i :| 0 <= i < |objects| && Fresh(vm0, rs[i]) && objects[i] == objects[j];
      assert ReadAs(vm0, vm.heap, objects[i], externs, i, rs[i]);
    }
  }

  lemma ReadNames(vm0: Vm, vm: Vm, objects: seq<int>, externs: map<int, int>, notHosted: set<int>, rs: seq<Record>)
    requires ReadUpTo(vm0, vm, objects, externs, notHosted, rs, |rs|) && RecordsNamed(vm.oids, objects, rs)
    ensures NamesRead(vm0, vm.oids, objects, rs)
  {
    forall x | x in vm.oids
      ensures NameKnown(vm0, vm.oids, objects, rs, x)
    {
      assert OidKnown(vm0, vm, objects, rs, x);
    }
  }

  lemma AllRestored(ty: StreamTypes, vm0: Vm, vm: Vm, heap: map<int, Obj>, objects: seq<int>, externs: map<int, int>, notHosted: set<int>, rs: seq<Record>)
    requires ReadUpTo(vm0, vm, objects, externs, notHosted, rs, |rs|) && PresentKept(vm0, vm, objects, rs, |rs|)
    requires TranslatedAll(ty, vm.heap, heap, notHosted, Where(objects, externs, vm.oids)) && NamesRead(vm0, vm.oids, objects, rs)
    ensures Restored(ty, vm0, heap, vm.oids, objects, externs, rs)
  {
    hide Translated, Where, NamesRead;
    forall j | 0 <= j < |rs|
      ensures Made(ty, vm0, heap, vm.oids, objects, externs, rs, j)
    {
      assert ReadAs(vm0, vm.heap, objects[j], externs, j, rs[j]);
      WaitingMade(vm0, vm, objects, externs, notHosted, rs, j);
      assert objects[j] != NIL ==> objects[j] in vm.heap.Keys;
    }
    forall x | x in vm0.oids
      ensures x in vm.oids && vm.oids[x] == vm0.oids[x]
    {
      KeptOid(vm0, vm, objects, externs, notHosted, rs, x);
    }
    forall a | a in vm0.heap && a !in objects
      ensures a in heap && heap[a] == vm0.heap[a]
    {
      assert a in notHosted ==> MadeHere(vm0, objects, rs, a);
      assert a in vm.heap.Keys;
    }
  }

  lemma KeptOid(vm0: Vm, vm: Vm, objects: seq<int>, externs: map<int, int>, notHosted: set<int>, rs: seq<Record>, x: int)
    requires ReadUpTo(vm0, vm, objects, externs, notHosted, rs, |rs|) && x in vm0.oids
    ensures x in vm.oids && vm.oids[x] == vm0.oids[x]
  {
    forall j | 0 <= j < |rs| && OidOf(rs[j]) == x
      ensures objects[j] == vm0.oids[x]
    {
      assert ReadAs(vm0, vm.heap, objects[j], externs, j, rs[j]);
    }
    assert OidKnown(vm0, vm, objects, rs, x);
  }
}
