/** Abstract types and the rule of vm/conform.c, as a relation. */
module AbstractTypes {
  const NIL: int := -1

  datatype Op = Op(name: string, isFunction: bool, arguments: seq<int>, results: seq<int>)

  /** `flags` is the word the source keeps its attributes in. */
  datatype Type = Type(flags: bv32, ops: seq<Op>)

  const ISIMMUTABLE: bv32 := 2
  const ISVECTOR: bv32 := 4

  /** The types that exist, by object identifier; `none` and `any` are the
      builtin types None and Any, and `closed` the builtin types that nothing
      else conforms to. */
  datatype Types = Types(defs: map<int, Type>, none: int, any: int, closed: set<int>)

  predicate IsVector(t: Type) {
    t.flags & ISVECTOR != 0
  }

  /** samename: same name and equally many arguments. */
  predicate SameName(a: Op, b: Op) {
    a.name == b.name && |a.arguments| == |b.arguments|
  }

  /** The first operation from `j` on with the name of `b`; past the end if there is none. */
  function Match(ops: seq<Op>, b: Op, j: nat): (r: nat)
    requires j <= |ops|
    ensures j <= r <= |ops| && (r < |ops| ==> SameName(ops[r], b))
    ensures forall i :: j <= i < r ==> !SameName(ops[i], b)
    decreases |ops| - j
  {
    if j == |ops| || SameName(ops[j], b) then j else Match(ops, b, j + 1)
  }

  type Rel = set<(int, int)>

  /** The first `n` arguments are contravariant. */
  ghost predicate ArgumentsOk(r: Rel, a: Op, b: Op, n: int) {
    forall k :: 0 <= k < n && k < |a.arguments| && k < |b.arguments| ==> (b.arguments[k], a.arguments[k]) in r
  }

  /** The first `n` results are covariant. */
  ghost predicate ResultsOk(r: Rel, a: Op, b: Op, n: int) {
    forall k :: 0 <= k < n && k < |a.results| && k < |b.results| ==> (a.results[k], b.results[k]) in r
  }

  /** Among `ops` there is one that can stand for `b`. */
  ghost predicate OpOk(r: Rel, ops: seq<Op>, b: Op) {
    var j := Match(ops, b, 0);
    && j < |ops| && (b.isFunction ==> ops[j].isFunction)
    && ArgumentsOk(r, ops[j], b, |ops[j].arguments|) && ResultsOk(r, ops[j], b, |ops[j].results|)
  }

  /** The cases decided without looking at operations. */
  predicate Granted(g: Types, a: int, b: int) {
    || a == NIL || b == NIL
    || a == g.none || b == g.any || (b != g.none && a == b)
  }

  predicate Refused(g: Types, a: int, b: int)
    requires a in g.defs && b in g.defs
  {
    || b == g.none
    || (if IsVector(g.defs[b]) then !IsVector(g.defs[a]) else b in g.closed)
    || |g.defs[a].ops| < |g.defs[b].ops|
  }

  /** One application of the rule, with `r` for what is to hold of the parts. */
  ghost predicate Allowed(g: Types, r: Rel, a: int, b: int) {
    || Granted(g, a, b)
    || (a in g.defs && b in g.defs && !Refused(g, a, b)
        && forall i :: 0 <= i < |g.defs[b].ops| ==> OpOk(r, g.defs[a].ops, g.defs[b].ops[i]))
  }

  /** `r` is closed under the rule: whatever it relates, the rule allows. */
  ghost predicate Closed(g: Types, r: Rel) {
    forall p :: p in r ==> Allowed(g, r, p.0, p.1)
  }

  /** The greatest relation closed under the rule. */
  ghost predicate Conf(g: Types, a: int, b: int) {
    exists r: Rel :: (a, b) in r && Closed(g, r)
  }

  predicate Known(g: Types, a: int) {
    a == NIL || a in g.defs
  }

  /** All pairs of known types that are in the greatest relation. */
  ghost function Confs(g: Types): Rel {
    set a, b | a in g.defs.Keys + {NIL} && b in g.defs.Keys + {NIL} && Conf(g, a, b) :: (a, b)
  }

  predicate RefsKnown(g: Types, o: Op) {
    && (forall k :: 0 <= k < |o.arguments| ==> Known(g, o.arguments[k]))
    && (forall k :: 0 <= k < |o.results| ==> Known(g, o.results[k]))
  }

  /** The builtin types exist, operations mention known types, and those that
      can be matched have equally many results. */
  ghost predicate WellFormed(g: Types) {
    && g.none in g.defs && g.any in g.defs && g.none != g.any && NIL !in g.defs
    && (forall a, i :: a in g.defs && 0 <= i < |g.defs[a].ops| ==> RefsKnown(g, g.defs[a].ops[i]))
    && (forall a, b, i, j :: a in g.defs && b in g.defs && 0 <= i < |g.defs[a].ops| && 0 <= j < |g.defs[b].ops|
          && SameName(g.defs[a].ops[i], g.defs[b].ops[j])
          ==> |g.defs[a].ops[i].results| == |g.defs[b].ops[j].results|)
  }

  // ----- the greatest relation -----

  lemma AllowedMore(g: Types, r: Rel, s: Rel, a: int, b: int)
    requires Allowed(g, r, a, b) && r <= s
    ensures Allowed(g, s, a, b)
  {
    if !Granted(g, a, b) {
      forall i | 0 <= i < |g.defs[b].ops|
        ensures OpOk(s, g.defs[a].ops, g.defs[b].ops[i])
      {
        assert OpOk(r, g.defs[a].ops, g.defs[b].ops[i]);
      }
    }
  }

  /** A closed relation with pairs of unknown types left out is closed. */
  lemma Restrict(g: Types, r: Rel)
    requires WellFormed(g) && Closed(g, r)
    ensures Closed(g, set p | p in r && Known(g, p.0) && Known(g, p.1))
  {
    var s := set p | p in r && Known(g, p.0) && Known(g, p.1);
    forall p | p in s
      ensures Allowed(g, s, p.0, p.1)
    {
      var a, b := p.0, p.1;
      assert Allowed(g, r, a, b);
      if !Granted(g, a, b) {
        forall i | 0 <= i < |g.defs[b].ops|
          ensures OpOk(s, g.defs[a].ops, g.defs[b].ops[i])
        {
          var ops, o := g.defs[a].ops, g.defs[b].ops[i];
          assert OpOk(r, ops, o) && RefsKnown(g, o) && RefsKnown(g, ops[Match(ops, o, 0)]);
        }
      }
    }
  }

  lemma ConfKnown(g: Types, r: Rel)
    requires WellFormed(g) && Closed(g, r)
    ensures forall p :: p in r && Known(g, p.0) && Known(g, p.1) ==> p in Confs(g)
  {
    forall p | p in r && Known(g, p.0) && Known(g, p.1)
      ensures p in Confs(g)
    {
      assert p == (p.0, p.1);
      assert Conf(g, p.0, p.1);
    }
  }

  /** The greatest relation is closed ... */
  lemma Unfold(g: Types, a: int, b: int)
    requires WellFormed(g) && Known(g, a) && Known(g, b) && Conf(g, a, b)
    ensures Allowed(g, Confs(g), a, b)
  {
    var r: Rel :| (a, b) in r && Closed(g, r);
    Restrict(g, r);
    var s := set p | p in r && Known(g, p.0) && Known(g, p.1);
    ConfKnown(g, s);
    assert s <= Confs(g);
    AllowedMore(g, s, Confs(g), a, b);
  }

  /** ... and contains everything that it allows. */
  lemma Fold(g: Types, extra: Rel, a: int, b: int)
    requires WellFormed(g) && (a, b) in extra
    requires forall p :: p in extra ==> Allowed(g, extra + Confs(g), p.0, p.1)
    ensures Conf(g, a, b)
  {
    var r := extra + Confs(g);
    forall p | p in r
      ensures Allowed(g, r, p.0, p.1)
    {
      if p !in extra {
        Unfold(g, p.0, p.1);
        AllowedMore(g, Confs(g), r, p.0, p.1);
      }
    }
    assert Closed(g, r);
  }

  /** The greatest relation is the greatest fixed point of the rule. */
  lemma FixedPoint(g: Types, a: int, b: int)
    requires WellFormed(g) && Known(g, a) && Known(g, b)
    ensures Conf(g, a, b) <==> Allowed(g, Confs(g), a, b)
  {
    if Conf(g, a, b) {
      Unfold(g, a, b);
    }
    if Allowed(g, Confs(g), a, b) {
      AllowedMore(g, Confs(g), {(a, b)} + Confs(g), a, b);
      Fold(g, {(a, b)}, a, b);
    }
  }

  // ----- the rule, spelled out -----

  /** When `j` stands for operation `i`: it is the first of that name and with
      that many arguments. */
  lemma StandsFor(r: Rel, aops: seq<Op>, b: Op, j: int)
    requires 0 <= j < |aops| && aops[j].name == b.name && |aops[j].arguments| == |b.arguments|
    requires forall h :: 0 <= h < j && aops[h].name == b.name ==> |aops[h].arguments| != |b.arguments|
    ensures OpOk(r, aops, b) <==> (b.isFunction ==> aops[j].isFunction)
                                  && (forall k :: 0 <= k < |b.arguments| ==> (b.arguments[k], aops[j].arguments[k]) in r)
                                  && (forall k :: 0 <= k < |aops[j].results| && k < |b.results| ==> (aops[j].results[k], b.results[k]) in r)
  {
    var m := Match(aops, b, 0);
    assert SameName(aops[j], b);
    assert m == j;
  }

  lemma StoodFor(r: Rel, aops: seq<Op>, b: Op) returns (j: int)
    requires OpOk(r, aops, b)
    ensures 0 <= j < |aops| && aops[j].name == b.name && |aops[j].arguments| == |b.arguments|
    ensures forall h :: 0 <= h < j && aops[h].name == b.name ==> |aops[h].arguments| != |b.arguments|
    ensures b.isFunction ==> aops[j].isFunction
    ensures forall k :: 0 <= k < |b.arguments| ==> (b.arguments[k], aops[j].arguments[k]) in r
    ensures forall k :: 0 <= k < |aops[j].results| && k < |b.results| ==> (aops[j].results[k], b.results[k]) in r
  {
    j := Match(aops, b, 0);
    forall h | 0 <= h < j && aops[h].name == b.name
      ensures |aops[h].arguments| != |b.arguments|
    {
      assert !SameName(aops[h], b);
    }
  }

  /** Two types are the same, or related by being None or Any. */
  lemma ConformsAnyway(g: Types, a: int, b: int)
    requires WellFormed(g) && Known(g, a) && Known(g, b)
    requires a == NIL || b == NIL || a == g.none || b == g.any || (a == b && b != g.none)
    ensures Conf(g, a, b)
  {
    FixedPoint(g, a, b);
  }

  /** If neither is the case, one conforms to the other only if that is not None,
      nor a vector unless it is one too, nor one of the closed types, and has no
      more operations; and if for every one of them the operation chosen, which
      is the first of that name and number of arguments, is a function if that
      is, accepts its arguments and gives its results. */
  lemma ConformsOnlyIf(g: Types, a: int, b: int) returns (choice: seq<nat>)
    requires WellFormed(g) && a in g.defs && b in g.defs && Conf(g, a, b)
    requires a != g.none && b != g.any && a != b
    ensures b != g.none && (if g.defs[b].flags & 4 != 0 then g.defs[a].flags & 4 != 0 else b !in g.closed)
    ensures |g.defs[b].ops| <= |g.defs[a].ops| && |choice| == |g.defs[b].ops|
    ensures forall i :: 0 <= i < |g.defs[b].ops| ==>
              && 0 <= choice[i] < |g.defs[a].ops|
              && g.defs[a].ops[choice[i]].name == g.defs[b].ops[i].name
              && |g.defs[a].ops[choice[i]].arguments| == |g.defs[b].ops[i].arguments|
              && (forall h :: 0 <= h < choice[i] && g.defs[a].ops[h].name == g.defs[b].ops[i].name
                    ==> |g.defs[a].ops[h].arguments| != |g.defs[b].ops[i].arguments|)
              && (g.defs[b].ops[i].isFunction ==> g.defs[a].ops[choice[i]].isFunction)
              && (forall k :: 0 <= k < |g.defs[b].ops[i].arguments|
                    ==> Conf(g, g.defs[b].ops[i].arguments[k], g.defs[a].ops[choice[i]].arguments[k]))
              && (forall k :: 0 <= k < |g.defs[a].ops[choice[i]].results| && k < |g.defs[b].ops[i].results|
                    ==> Conf(g, g.defs[a].ops[choice[i]].results[k], g.defs[b].ops[i].results[k]))
  {
    FixedPoint(g, a, b);
    assert !Granted(g, a, b) && !Refused(g, a, b);
    InConfs(g);
    hide Conf, Confs, OpOk, WellFormed, Allowed, Refused, Granted;
    choice := [];
    while |choice| < |g.defs[b].ops|
      invariant |choice| <= |g.defs[b].ops|
      invariant forall i :: 0 <= i < |choice| ==>
              && 0 <= choice[i] < |g.defs[a].ops|
              && g.defs[a].ops[choice[i]].name == g.defs[b].ops[i].name
              && |g.defs[a].ops[choice[i]].arguments| == |g.defs[b].ops[i].arguments|
              && (forall h :: 0 <= h < choice[i] && g.defs[a].ops[h].name == g.defs[b].ops[i].name
                    ==> |g.defs[a].ops[h].arguments| != |g.defs[b].ops[i].arguments|)
              && (g.defs[b].ops[i].isFunction ==> g.defs[a].ops[choice[i]].isFunction)
              && (forall k :: 0 <= k < |g.defs[b].ops[i].arguments|
                    ==> Conf(g, g.defs[b].ops[i].arguments[k], g.defs[a].ops[choice[i]].arguments[k]))
              && (forall k :: 0 <= k < |g.defs[a].ops[choice[i]].results| && k < |g.defs[b].ops[i].results|
                    ==> Conf(g, g.defs[a].ops[choice[i]].results[k], g.defs[b].ops[i].results[k]))
    {
      var i := |choice|;
      var j := StoodFor(Confs(g), g.defs[a].ops, g.defs[b].ops[i]);
      choice := choice + [j];
    }
  }

  /** ... and if. */
  lemma ConformsIf(g: Types, a: int, b: int, choice: seq<nat>)
    requires WellFormed(g) && a in g.defs && b in g.defs
    requires b != g.none && (if g.defs[b].flags & 4 != 0 then g.defs[a].flags & 4 != 0 else b !in g.closed)
    requires |g.defs[b].ops| <= |g.defs[a].ops| && |choice| == |g.defs[b].ops|
    requires forall i :: 0 <= i < |g.defs[b].ops| ==>
              && 0 <= choice[i] < |g.defs[a].ops|
              && g.defs[a].ops[choice[i]].name == g.defs[b].ops[i].name
              && |g.defs[a].ops[choice[i]].arguments| == |g.defs[b].ops[i].arguments|
              && (forall h :: 0 <= h < choice[i] && g.defs[a].ops[h].name == g.defs[b].ops[i].name
                    ==> |g.defs[a].ops[h].arguments| != |g.defs[b].ops[i].arguments|)
              && (g.defs[b].ops[i].isFunction ==> g.defs[a].ops[choice[i]].isFunction)
              && (forall k :: 0 <= k < |g.defs[b].ops[i].arguments|
                    ==> Conf(g, g.defs[b].ops[i].arguments[k], g.defs[a].ops[choice[i]].arguments[k]))
              && (forall k :: 0 <= k < |g.defs[a].ops[choice[i]].results| && k < |g.defs[b].ops[i].results|
                    ==> Conf(g, g.defs[a].ops[choice[i]].results[k], g.defs[b].ops[i].results[k]))
    ensures Conf(g, a, b)
  {
    FixedPoint(g, a, b);
    InConfs(g);
    hide Conf, Confs;
    forall i | 0 <= i < |g.defs[b].ops|
      ensures OpOk(Confs(g), g.defs[a].ops, g.defs[b].ops[i])
    {
      hide OpOk, WellFormed;
      EquallyMany(g, a, b, i, choice[i]);
      StandsFor(Confs(g), g.defs[a].ops, g.defs[b].ops[i], choice[i]);
    }
  }

  lemma EquallyMany(g: Types, a: int, b: int, i: int, j: int)
    requires WellFormed(g) && a in g.defs && b in g.defs && 0 <= i < |g.defs[b].ops| && 0 <= j < |g.defs[a].ops|
    requires g.defs[a].ops[j].name == g.defs[b].ops[i].name && |g.defs[a].ops[j].arguments| == |g.defs[b].ops[i].arguments|
    ensures |g.defs[a].ops[j].results| == |g.defs[b].ops[i].results|
    ensures RefsKnown(g, g.defs[a].ops[j]) && RefsKnown(g, g.defs[b].ops[i])
  {
    assert SameName(g.defs[a].ops[j], g.defs[b].ops[i]);
  }

  /** Types that differ only in that each refers to itself conform. */
  lemma SelfReferring(g: Types, a: int, b: int)
    requires WellFormed(g) && a in g.defs && b in g.defs && b != g.none && b !in g.closed && g.defs[b].flags & 4 == 0
    requires |g.defs[a].ops| == |g.defs[b].ops| == 1 && g.defs[a].ops[0].arguments == g.defs[b].ops[0].arguments == []
    requires g.defs[a].ops[0].name == g.defs[b].ops[0].name && g.defs[a].ops[0].isFunction == g.defs[b].ops[0].isFunction
    requires g.defs[a].ops[0].results == [a] && g.defs[b].ops[0].results == [b]
    ensures Conf(g, a, b)
  {
    var r: Rel := {(a, b)};
    StandsFor(r, g.defs[a].ops, g.defs[b].ops[0], 0);
    assert Closed(g, r);
  }

  /** A function stands for a plain operation, and not the other way round. */
  lemma FunctionsOneWay(g: Types, a: int, b: int)
    requires WellFormed(g) && a in g.defs && b in g.defs && a != b && g.none !in {a, b} && g.any !in {a, b}
    requires g.defs[a].flags & 4 == 0 && g.defs[b].flags & 4 == 0 && a !in g.closed && b !in g.closed
    requires |g.defs[a].ops| == |g.defs[b].ops| == 1 && g.defs[a].ops[0] == g.defs[b].ops[0].(isFunction := false)
    requires g.defs[b].ops[0].isFunction && g.defs[b].ops[0].arguments == [] && g.defs[b].ops[0].results == []
    ensures !Conf(g, a, b) && Conf(g, b, a)
  {
    ConformsIf(g, b, a, [0]);
    if Conf(g, a, b) {
      var choice := ConformsOnlyIf(g, a, b);
      assert false;
    }
  }

  lemma InConfs(g: Types)
    ensures forall a, b :: (a, b) in Confs(g) <==> Known(g, a) && Known(g, b) && Conf(g, a, b)
  {
  }

  // ----- a preorder -----

  /** No operation mentions a missing type. */
  predicate NoNil(g: Types) {
    forall a, i :: a in g.defs && 0 <= i < |g.defs[a].ops| ==> NIL !in g.defs[a].ops[i].arguments && NIL !in g.defs[a].ops[i].results
  }

  lemma Reflexive(g: Types, a: int)
    ensures Conf(g, a, a)
  {
    assert Closed(g, {(a, a)});
  }

  /** Pairs related in two steps. */
  ghost function TwoSteps(g: Types): Rel {
    set a, b, c | a in g.defs && b in g.defs && c in g.defs && Conf(g, a, b) && Conf(g, b, c) :: (a, c)
  }

  lemma MatchSame(ops: seq<Op>, b: Op, c: Op, j: nat)
    requires j <= |ops| && SameName(b, c)
    ensures Match(ops, b, j) == Match(ops, c, j)
    decreases |ops| - j
  {
    if j < |ops| && !SameName(ops[j], b) {
      MatchSame(ops, b, c, j + 1);
    }
  }

  /** The operation that stands for one that stands for `o` stands for `o`. */
  lemma OpsCompose(g: Types, a: int, b: int, c: int, i: nat)
    requires WellFormed(g) && NoNil(g) && a in g.defs && b in g.defs && c in g.defs && i < |g.defs[c].ops|
    requires OpOk(Confs(g), g.defs[b].ops, g.defs[c].ops[i])
    requires forall j :: 0 <= j < |g.defs[b].ops| ==> OpOk(Confs(g), g.defs[a].ops, g.defs[b].ops[j])
    ensures OpOk(TwoSteps(g), g.defs[a].ops, g.defs[c].ops[i])
  {
    var o := g.defs[c].ops[i];
    var j := Match(g.defs[b].ops, o, 0);
    var q := g.defs[b].ops[j];
    var k := Match(g.defs[a].ops, q, 0);
    MatchSame(g.defs[a].ops, q, o, 0);
    assert OpOk(Confs(g), g.defs[a].ops, q);
    var p := g.defs[a].ops[k];
    assert RefsKnown(g, o) && RefsKnown(g, q) && RefsKnown(g, p);
    forall n | 0 <= n < |p.arguments|
      ensures (o.arguments[n], p.arguments[n]) in TwoSteps(g)
    {
      var x, y, z := o.arguments[n], q.arguments[n], p.arguments[n];
      assert x in o.arguments && y in q.arguments && z in p.arguments;
      assert (x, y) in Confs(g) && (y, z) in Confs(g);
    }
    forall n | 0 <= n < |p.results|
      ensures (p.results[n], o.results[n]) in TwoSteps(g)
    {
      var x, y, z := p.results[n], q.results[n], o.results[n];
      assert x in p.results && y in q.results && z in o.results;
      assert (x, y) in Confs(g) && (y, z) in Confs(g);
    }
  }

  lemma ConfsInTwoSteps(g: Types)
    ensures forall p :: p in Confs(g) && p.0 in g.defs && p.1 in g.defs ==> p in TwoSteps(g)
  {
    forall p | p in Confs(g) && p.0 in g.defs && p.1 in g.defs
      ensures p in TwoSteps(g)
    {
      Reflexive(g, p.0);
      assert p == (p.0, p.1) && Conf(g, p.0, p.1);
    }
  }

  lemma ConfOpsTwoSteps(g: Types, a: int, c: int, i: nat)
    requires WellFormed(g) && NoNil(g) && a in g.defs && c in g.defs && i < |g.defs[c].ops|
    requires OpOk(Confs(g), g.defs[a].ops, g.defs[c].ops[i])
    ensures OpOk(TwoSteps(g), g.defs[a].ops, g.defs[c].ops[i])
  {
    ConfsInTwoSteps(g);
    hide Confs, TwoSteps, Conf;
    var o := g.defs[c].ops[i];
    var p := g.defs[a].ops[Match(g.defs[a].ops, o, 0)];
    assert RefsKnown(g, o) && RefsKnown(g, p);
    forall n | 0 <= n < |p.arguments|
      ensures (o.arguments[n], p.arguments[n]) in TwoSteps(g)
    {
      assert o.arguments[n] in o.arguments && p.arguments[n] in p.arguments;
      assert (o.arguments[n], p.arguments[n]) in Confs(g);
    }
    forall n | 0 <= n < |p.results|
      ensures (p.results[n], o.results[n]) in TwoSteps(g)
    {
      assert o.results[n] in o.results && p.results[n] in p.results;
      assert (p.results[n], o.results[n]) in Confs(g);
    }
  }

  lemma TwoStepsAllowed(g: Types, a: int, b: int, c: int)
    requires WellFormed(g) && NoNil(g) && g.defs[g.any].ops == [] && !IsVector(g.defs[g.any])
    requires a in g.defs && b in g.defs && c in g.defs && Conf(g, a, b) && Conf(g, b, c)
    ensures Allowed(g, TwoSteps(g), a, c)
  {
    Unfold(g, a, b);
    Unfold(g, b, c);
    if !Granted(g, a, c) {
      assert a != NIL && b != NIL && c != NIL;
      if a == b || b == c {
        forall i | 0 <= i < |g.defs[c].ops|
          ensures OpOk(TwoSteps(g), g.defs[a].ops, g.defs[c].ops[i])
        {
          ConfOpsTwoSteps(g, a, c, i);
        }
      } else if b != g.any {
        forall i | 0 <= i < |g.defs[c].ops|
          ensures OpOk(TwoSteps(g), g.defs[a].ops, g.defs[c].ops[i])
        {
          OpsCompose(g, a, b, c, i);
        }
      }
    }
  }

  /** Conformity is transitive when Any has no operations and is no vector. */
  lemma Transitive(g: Types, a: int, b: int, c: int)
    requires WellFormed(g) && NoNil(g) && g.defs[g.any].ops == [] && !IsVector(g.defs[g.any])
    requires a in g.defs && b in g.defs && c in g.defs && Conf(g, a, b) && Conf(g, b, c)
    ensures Conf(g, a, c)
  {
    forall p | p in TwoSteps(g)
      ensures Allowed(g, TwoSteps(g), p.0, p.1)
    {
      var x, y, z :| x in g.defs && y in g.defs && z in g.defs && Conf(g, x, y) && Conf(g, y, z) && p == (x, z);
      TwoStepsAllowed(g, x, y, z);
    }
    assert (a, c) in TwoSteps(g) && Closed(g, TwoSteps(g));
  }

  /** `h` has all types of `g`, unchanged, and the same builtin types. */
  predicate Extends(h: Types, g: Types) {
    && h.none == g.none && h.any == g.any && h.closed == g.closed
    && (forall a :: a in g.defs ==> a in h.defs && h.defs[a] == g.defs[a])
  }

  ghost predicate IsTransitive(g: Types) {
    forall a, b, c :: a in g.defs && b in g.defs && c in g.defs && Conf(g, a, b) && Conf(g, b, c) ==> Conf(g, a, c)
  }

  lemma {:induction false} Above(s: set<int>) returns (n: int)
    ensures n >= 0 && forall x :: x in s ==> x < n
  {
    n := 0;
    if x :| x in s {
      var m := Above(s - {x});
      n := if x < m then m else x + 1;
      forall z | z in s
        ensures z < n
      {
        assert z == x || z in s - {x};
      }
    }
  }

  lemma ToAny(g: Types, a: int)
    ensures Conf(g, a, g.any)
  {
    assert Closed(g, {(a, g.any)});
  }

  /** Types `e`, without operations, and `f` are loaded. */
  function WithTwo(g: Types, e: int, f: int, t: Type): Types {
    g.(defs := g.defs[e := Type(0, [])][f := t])
  }

  /** Two types that are new; `f` is to have an operation of Any, or none. */
  ghost predicate NewTwo(g: Types, e: int, f: int, t: Type) {
    && WellFormed(g) && NoNil(g) && e !in g.defs && f !in g.defs && e != f && e >= 0 && f >= 0 && f !in g.closed
    && (t.ops == [] || (g.defs[g.any].ops != [] && t.ops == [g.defs[g.any].ops[0]]))
  }

  lemma TwoLoaded(g: Types, e: int, f: int, t: Type)
    requires NewTwo(g, e, f, t)
    ensures var h := WithTwo(g, e, f, t); WellFormed(h) && NoNil(h) && Extends(h, g)
    ensures var h := WithTwo(g, e, f, t); h.defs[e] == Type(0, []) && h.defs[f] == t && h.defs[h.any] == g.defs[g.any] && e != h.any && f != h.any
  {
    var h := WithTwo(g, e, f, t);
    forall a, i | a in h.defs && 0 <= i < |h.defs[a].ops|
      ensures RefsKnown(h, h.defs[a].ops[i]) && NIL !in h.defs[a].ops[i].arguments && NIL !in h.defs[a].ops[i].results
    {
      OldOpAt(g, e, f, t, a, i);
    }
    forall a, b, i, j | a in h.defs && b in h.defs && 0 <= i < |h.defs[a].ops| && 0 <= j < |h.defs[b].ops|
                        && SameName(h.defs[a].ops[i], h.defs[b].ops[j])
      ensures |h.defs[a].ops[i].results| == |h.defs[b].ops[j].results|
    {
      OldOpAt(g, e, f, t, a, i);
      OldOpAt(g, e, f, t, b, j);
    }
  }

  /** Every operation is one that there was. */
  ghost predicate OldOp(g: Types, h: Types, a: int, i: int)
    requires a in h.defs && 0 <= i < |h.defs[a].ops|
  {
    exists b, j :: b in g.defs && 0 <= j < |g.defs[b].ops| && g.defs[b].ops[j] == h.defs[a].ops[i]
  }

  lemma OldOpAt(g: Types, e: int, f: int, t: Type, a: int, i: int)
    requires NewTwo(g, e, f, t) && a in WithTwo(g, e, f, t).defs && 0 <= i < |WithTwo(g, e, f, t).defs[a].ops|
    ensures OldOp(g, WithTwo(g, e, f, t), a, i)
  {
    var h := WithTwo(g, e, f, t);
    var b := if a == f then g.any else a;
    assert b in g.defs && g.defs[b].ops[i] == h.defs[a].ops[i];
  }

  /** Any conforms to a type that asks for its first operation. */
  lemma FromAny(h: Types, f: int)
    requires WellFormed(h) && f in h.defs && f != h.none && !IsVector(h.defs[f]) && f !in h.closed
    requires h.defs[h.any].ops != [] && h.defs[f].ops == [h.defs[h.any].ops[0]]
    ensures Conf(h, h.any, f)
  {
    var op := h.defs[h.any].ops[0];
    var same := set x | x in op.arguments + op.results :: (x, x);
    var r := {(h.any, f)} + same;
    assert Match(h.defs[h.any].ops, op, 0) == 0;
    forall k | 0 <= k < |op.arguments|
      ensures (op.arguments[k], op.arguments[k]) in r
    {
      assert op.arguments[k] in op.arguments + op.results;
    }
    forall k | 0 <= k < |op.results|
      ensures (op.results[k], op.results[k]) in r
    {
      assert op.results[k] in op.arguments + op.results;
    }
    assert OpOk(r, h.defs[h.any].ops, op);
    forall p | p in r
      ensures Allowed(h, r, p.0, p.1)
    {
    }
    assert Closed(h, r);
  }

  lemma FlagsZero()
    ensures !IsVector(Type(0, [])) && forall ops :: !IsVector(Type(0, ops)) && IsVector(Type(ISVECTOR, ops))
  {
    assert (0 as bv32) & ISVECTOR == 0 && ISVECTOR & ISVECTOR != 0;
  }

  /** Unless Any has no operations and is no vector, two types can be loaded,
      the first of which conforms to Any, and Any to the second, but not the
      first to the second. */
  lemma TransitivityBroken(g: Types) returns (h: Types)
    requires WellFormed(g) && NoNil(g) && (g.defs[g.any].ops != [] || IsVector(g.defs[g.any]))
    ensures WellFormed(h) && NoNil(h) && Extends(h, g) && !IsTransitive(h)
  {
    hide Conf, Extends;
    FlagsZero();
    var e := Above(g.defs.Keys + g.closed);
    var f := e + 1;
    var t := if g.defs[g.any].ops != [] then Type(0, [g.defs[g.any].ops[0]]) else Type(ISVECTOR, []);
    h := WithTwo(g, e, f, t);
    TwoLoaded(g, e, f, t);
    ToAny(h, e);
    if g.defs[g.any].ops != [] {
      FromAny(h, f);
    } else {
      AnyVector(h, f);
    }
    NotConforming(h, e, f);
  }

  lemma AnyVector(h: Types, f: int)
    requires WellFormed(h) && f in h.defs && f != h.none && h.defs[f].ops == [] && IsVector(h.defs[f]) && IsVector(h.defs[h.any])
    ensures Conf(h, h.any, f)
  {
    assert Allowed(h, {(h.any, f)}, h.any, f);
    assert Closed(h, {(h.any, f)});
  }

  lemma NotConforming(h: Types, e: int, f: int)
    requires WellFormed(h) && e in h.defs && f in h.defs && e != f && e != h.none && f != h.any && h.defs[e].ops == []
    requires h.defs[f].ops != [] || (IsVector(h.defs[f]) && !IsVector(h.defs[e]))
    ensures !Conf(h, e, f)
  {
    if Conf(h, e, f) {
      Unfold(h, e, f);
    }
  }

  /** However many types are loaded conformity stays transitive, if and only if
      Any has no operations and is no vector. */
  lemma TransitiveExactly(g: Types)
    requires WellFormed(g) && NoNil(g)
    ensures (forall h: Types :: WellFormed(h) && NoNil(h) && Extends(h, g) ==> IsTransitive(h))
       <==> (g.defs[g.any].ops == [] && !IsVector(g.defs[g.any]))
  {
    hide Conf;
    if g.defs[g.any].ops == [] && !IsVector(g.defs[g.any]) {
      forall h: Types | WellFormed(h) && NoNil(h) && Extends(h, g)
        ensures IsTransitive(h)
      {
        forall a, b, c | a in h.defs && b in h.defs && c in h.defs && Conf(h, a, b) && Conf(h, b, c)
          ensures Conf(h, a, c)
        {
          Transitive(h, a, b, c);
        }
      }
    } else {
      var h := TransitivityBroken(g);
    }
  }

  // ----- loading more types -----

  /** Loading more types changes no answer about those there are. */
  lemma SameAnswers(g: Types, h: Types, a: int, b: int)
    requires WellFormed(g) && WellFormed(h) && Extends(h, g) && Known(g, a) && Known(g, b)
    ensures Conf(g, a, b) <==> Conf(h, a, b)
  {
    if Conf(g, a, b) {
      var r: Rel :| (a, b) in r && Closed(g, r);
      forall p | p in r
        ensures Allowed(h, r, p.0, p.1)
      {
        assert Allowed(g, r, p.0, p.1);
      }
      assert Closed(h, r);
    }
    if Conf(h, a, b) {
      var r: Rel :| (a, b) in r && Closed(h, r);
      var s := set p | p in r && Known(g, p.0) && Known(g, p.1);
      forall p | p in s
        ensures Allowed(g, s, p.0, p.1)
      {
        RestrictTo(g, h, r, s, p.0, p.1);
      }
      assert Closed(g, s);
    }
  }

  lemma RestrictTo(g: Types, h: Types, r: Rel, s: Rel, a: int, b: int)
    requires WellFormed(g) && Extends(h, g) && Known(g, a) && Known(g, b)
    requires s == set p | p in r && Known(g, p.0) && Known(g, p.1)
    requires Allowed(h, r, a, b)
    ensures Allowed(g, s, a, b)
  {
    if !Granted(g, a, b) {
      forall i | 0 <= i < |g.defs[b].ops|
        ensures OpOk(s, g.defs[a].ops, g.defs[b].ops[i])
      {
        var ops, o := g.defs[a].ops, g.defs[b].ops[i];
        assert OpOk(r, ops, o) && RefsKnown(g, o) && RefsKnown(g, ops[Match(ops, o, 0)]);
      }
    }
  }

  // ----- the immutability test -----

  /** The test of vm/conform.c:147-148 as C reads it: the negation binds tighter
      than the mask. */
  predicate TestsImmutable(a: bv32, b: bv32) {
    b & ISIMMUTABLE != 0 && (if a == 0 then 1 else 0 as bv32) & ISIMMUTABLE != 0
  }

  /** What it is meant to say. */
  predicate MeantImmutable(a: bv32, b: bv32) {
    b & ISIMMUTABLE != 0 && a & ISIMMUTABLE == 0
  }

  /** The test never rejects: it agrees with what is meant just where nothing
      was to be rejected. */
  lemma ImmutabilityIgnored(a: bv32, b: bv32)
    ensures (TestsImmutable(a, b) <==> MeantImmutable(a, b)) <==> (b & ISIMMUTABLE == 0 || a & ISIMMUTABLE != 0)
  {
    assert (1 as bv32) & ISIMMUTABLE == 0 && (0 as bv32) & ISIMMUTABLE == 0;
  }

  /** The rule with the test as it is meant. */
  ghost predicate AllowedAsMeant(g: Types, r: Rel, a: int, b: int) {
    Allowed(g, r, a, b) && (Granted(g, a, b) || !MeantImmutable(g.defs[a].flags, g.defs[b].flags))
  }

  ghost predicate ConfAsMeant(g: Types, a: int, b: int) {
    exists r: Rel :: (a, b) in r && ClosedAsMeant(g, r)
  }

  ghost predicate ClosedAsMeant(g: Types, r: Rel) {
    forall p :: p in r ==> AllowedAsMeant(g, r, p.0, p.1)
  }

  /** The meant rule would give other answers just where, apart from the cases
      decided beforehand, a mutable type conforms to an immutable one. */
  lemma WhenImmutabilityMatters(g: Types)
    requires WellFormed(g)
    ensures (forall a, b :: a in g.defs && b in g.defs ==> (ConfAsMeant(g, a, b) <==> Conf(g, a, b)))
       <==> (forall a, b :: a in g.defs && b in g.defs && Conf(g, a, b) && !Granted(g, a, b)
                            ==> !MeantImmutable(g.defs[a].flags, g.defs[b].flags))
  {
    forall a, b | ConfAsMeant(g, a, b)
      ensures Conf(g, a, b)
    {
      var r: Rel :| (a, b) in r && ClosedAsMeant(g, r);
      assert Closed(g, r);
    }
    if forall a, b :: a in g.defs && b in g.defs && Conf(g, a, b) && !Granted(g, a, b)
                      ==> !MeantImmutable(g.defs[a].flags, g.defs[b].flags) {
      forall p | p in Confs(g)
        ensures AllowedAsMeant(g, Confs(g), p.0, p.1)
      {
        Unfold(g, p.0, p.1);
      }
      forall a, b | a in g.defs && b in g.defs && Conf(g, a, b)
        ensures ConfAsMeant(g, a, b)
      {
        assert (a, b) in Confs(g) && ClosedAsMeant(g, Confs(g));
      }
    }
  }

  /** A type with flags `fa` is not refused for being no vector. */
  predicate VectorPasses(fa: bv32, fb: bv32) {
    fb & ISVECTOR == 0 || fa & ISVECTOR != 0
  }

  predicate FlagsIn(g: Types, flags: set<bv32>) {
    forall a :: a in g.defs ==> g.defs[a].flags in flags
  }

  ghost predicate AnswersAsMeant(g: Types) {
    forall a, b :: a in g.defs && b in g.defs ==> (ConfAsMeant(g, a, b) <==> Conf(g, a, b))
  }

  /** No two of the flag words are of a mutable and an immutable type that the
      vector test lets through. */
  predicate NoneMixed(flags: set<bv32>) {
    forall fa, fb :: fa in flags && fb in flags ==> !(MeantImmutable(fa, fb) && VectorPasses(fa, fb))
  }

  /** Two types without operations, the first mutable and the second immutable:
      the first conforms to the second, though it is not meant to. */
  lemma MutableConforms(fa: bv32, fb: bv32) returns (g: Types)
    requires MeantImmutable(fa, fb) && VectorPasses(fa, fb)
    ensures WellFormed(g) && NoNil(g) && g.defs.Keys == {0, 1, 2, 3} && FlagsIn(g, {fa, fb})
    ensures g.defs[2].flags == fa && g.defs[3].flags == fb && Conf(g, 2, 3) && !ConfAsMeant(g, 2, 3)
  {
    g := Types(map[0 := Type(fa, []), 1 := Type(fa, []), 2 := Type(fa, []), 3 := Type(fb, [])], 0, 1, {});
    assert Allowed(g, {(2, 3)}, 2, 3);
    assert Closed(g, {(2, 3)});
    NotAsMeant(g, 2, 3);
  }

  lemma NotAsMeant(g: Types, a: int, b: int)
    requires a in g.defs && b in g.defs && !Granted(g, a, b) && MeantImmutable(g.defs[a].flags, g.defs[b].flags)
    ensures !ConfAsMeant(g, a, b)
  {
    forall r: Rel | (a, b) in r
      ensures !ClosedAsMeant(g, r)
    {
      var p := (a, b);
      assert !AllowedAsMeant(g, r, p.0, p.1);
    }
  }

  /** The test that never rejects makes no difference to any program whose types
      have these flag words, if and only if they are not mixed. */
  lemma ImmutabilityExactly(flags: set<bv32>)
    ensures (forall g: Types :: WellFormed(g) && FlagsIn(g, flags) ==> AnswersAsMeant(g)) <==> NoneMixed(flags)
  {
    if NoneMixed(flags) {
      forall g: Types | WellFormed(g) && FlagsIn(g, flags)
        ensures AnswersAsMeant(g)
      {
        UnmixedAsMeant(g, flags);
      }
    } else {
      var fa, fb :| fa in flags && fb in flags && MeantImmutable(fa, fb) && VectorPasses(fa, fb);
      hide Conf, ConfAsMeant;
      var g := MutableConforms(fa, fb);
    }
  }

  lemma UnmixedAsMeant(g: Types, flags: set<bv32>)
    requires WellFormed(g) && FlagsIn(g, flags) && NoneMixed(flags)
    ensures AnswersAsMeant(g)
  {
    forall a, b | a in g.defs && b in g.defs && Conf(g, a, b) && !Granted(g, a, b)
      ensures !MeantImmutable(g.defs[a].flags, g.defs[b].flags)
    {
      Unfold(g, a, b);
      assert VectorPasses(g.defs[a].flags, g.defs[b].flags);
    }
    hide Conf, ConfAsMeant;
    WhenImmutabilityMatters(g);
  }
}
