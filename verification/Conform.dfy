/** The decision procedure of vm/conform.c: a recursive test with a table of
    assumptions and a cache of results. */
module Conformity {
  import opened AbstractTypes

  ghost function Pairs(g: Types): set<(int, int)> {
    set a, b | a in g.defs.Keys && b in g.defs.Keys :: (a, b)
  }

  /** What has been assumed since `before` is allowed, given what is assumed now. */
  ghost predicate Justified(g: Types, before: Rel, now: Rel) {
    before <= now && forall p :: p in now && p !in before ==> Allowed(g, now + Confs(g), p.0, p.1)
  }

  lemma JustifiedTrans(g: Types, a: Rel, b: Rel, c: Rel)
    requires Justified(g, a, b) && Justified(g, b, c)
    ensures Justified(g, a, c)
  {
    forall p | p in c && p !in a
      ensures Allowed(g, c + Confs(g), p.0, p.1)
    {
      if p in b {
        AllowedMore(g, b + Confs(g), c + Confs(g), p.0, p.1);
      }
    }
  }

  lemma JustifiedSame(g: Types, a: Rel)
    ensures Justified(g, a, a)
  {
  }

  lemma ArgumentsNext(r: Rel, s: Rel, a: Op, b: Op, k: int)
    requires ArgumentsOk(r, a, b, k) && r <= s && 0 <= k < |a.arguments| && k < |b.arguments|
    requires (b.arguments[k], a.arguments[k]) in s
    ensures ArgumentsOk(s, a, b, k + 1)
  {
  }

  lemma ArgumentsNone(r: Rel, a: Op, b: Op)
    ensures ArgumentsOk(r, a, b, 0)
  {
  }

  lemma ResultsNone(r: Rel, a: Op, b: Op)
    ensures ResultsOk(r, a, b, 0)
  {
  }

  lemma ArgumentsNot(r: Rel, a: Op, b: Op, k: int)
    requires 0 <= k < |a.arguments| && k < |b.arguments| && (b.arguments[k], a.arguments[k]) !in r
    ensures !ArgumentsOk(r, a, b, |a.arguments|)
  {
  }

  lemma ResultsNext(r: Rel, s: Rel, a: Op, b: Op, k: int)
    requires ResultsOk(r, a, b, k) && r <= s && 0 <= k < |a.results| && k < |b.results|
    requires (a.results[k], b.results[k]) in s
    ensures ResultsOk(s, a, b, k + 1)
  {
  }

  lemma ResultsNot(r: Rel, a: Op, b: Op, k: int)
    requires 0 <= k < |a.results| && k < |b.results| && (a.results[k], b.results[k]) !in r
    ensures !ResultsOk(r, a, b, |a.results|)
  {
  }

  lemma JustifiedOne(g: Types, a: Rel, p: (int, int), c: Rel)
    requires Justified(g, a + {p}, c) && Allowed(g, c + Confs(g), p.0, p.1)
    ensures Justified(g, a, c)
  {
  }

  class Conformer {
    var types: Types
    var assumeMap: map<(int, int), int>
    var conformMap: map<(int, int), int>

    /** What is assumed is about known types; what is cached is right. */
    ghost predicate Valid()
      reads this
    {
      && WellFormed(types)
      && (forall p :: p in assumeMap ==> assumeMap[p] == 1 && p.0 in types.defs && p.1 in types.defs)
      && (forall p :: p in conformMap ==> && p.0 in types.defs && p.1 in types.defs
                                          && conformMap[p] == if Conf(types, p.0, p.1) then 1 else 0)
    }

    ghost predicate IsType(a: int)
      reads this`types
    {
      Known(types, a)
    }

    /** The pair is assumed, or holds anyway. */
    ghost predicate Holds(a: int, b: int)
      reads this`types, this`assumeMap
    {
      (a, b) in assumeMap.Keys + Confs(types)
    }

    constructor (types: Types)
      requires WellFormed(types)
      ensures Valid() && this.types == types && assumeMap == map[] && conformMap == map[]
    {
      this.types, assumeMap, conformMap := types, map[], map[];
    }

    /** More types are loaded: everything cached stays right. */
    method Load(more: Types)
      requires Valid() && assumeMap == map[] && WellFormed(more) && Extends(more, types)
      modifies this`types
      ensures Valid() && types == more
    {
      forall p | p in conformMap
        ensures Conf(types, p.0, p.1) <==> Conf(more, p.0, p.1)
      {
        SameAnswers(types, more, p.0, p.1);
      }
      types := more;
    }

    /** conforms: decides the greatest relation closed under the rule. */
    method Conforms(a: int, b: int) returns (r: int)
      requires Valid() && IsType(a) && IsType(b)
      modifies this`assumeMap, this`conformMap
      ensures Valid() && assumeMap == map[]
      ensures r == if Conf(types, a, b) then 1 else 0
      ensures conformMap.Keys == old(conformMap.Keys) + if a == NIL || b == NIL then {} else {(a, b)}
      ensures r == 1 && a in types.defs && b in types.defs && a != types.none && b != types.any && a != b ==>
                forall i :: 0 <= i < |types.defs[b].ops| && types.defs[b].ops[i].isFunction ==>
                  exists j :: 0 <= j < |types.defs[a].ops| && types.defs[a].ops[j].isFunction
                              && types.defs[a].ops[j].name == types.defs[b].ops[i].name
                              && |types.defs[a].ops[j].arguments| == |types.defs[b].ops[i].arguments|
                              && forall h :: 0 <= h < j && types.defs[a].ops[h].name == types.defs[b].ops[i].name
                                   ==> |types.defs[a].ops[h].arguments| != |types.defs[b].ops[i].arguments|
    {
      assumeMap := map[];
      r := Iconforms(a, b, 0);
      if r == 1 {
        TopLevel(types, assumeMap.Keys, a, b);
        if a in types.defs && b in types.defs && a != types.none && b != types.any && a != b {
          ghost var choice := ConformsOnlyIf(types, a, b);
          hide Conf, Confs, WellFormed, Justified;
          forall i | 0 <= i < |types.defs[b].ops|
            ensures 0 <= choice[i] < |types.defs[a].ops|
          {
          }
        }
      }
      assumeMap := map[];
    }

    static lemma TopLevel(g: Types, assumed: Rel, a: int, b: int)
      requires WellFormed(g) && Known(g, a) && Known(g, b) && (a, b) in assumed + Confs(g)
      requires Justified(g, {}, assumed)
      ensures Conf(g, a, b)
    {
      if (a, b) in assumed {
        Fold(g, assumed, a, b);
      }
    }

    /** iconforms at nesting depth `l`; only the outermost answer is cached. */
    method Iconforms(a: int, b: int, l: nat) returns (r: int)
      requires Valid() && IsType(a) && IsType(b) && (l == 0 ==> assumeMap == map[])
      modifies this`assumeMap, this`conformMap
      ensures Valid() && (r == 0 || r == 1)
      ensures l > 0 ==> conformMap == old(conformMap)
      ensures l == 0 ==> conformMap.Keys == old(conformMap.Keys) + if a == NIL || b == NIL then {} else {(a, b)}
      ensures old(assumeMap.Keys) <= assumeMap.Keys
      ensures r == 0 ==> !Conf(types, a, b)
      ensures r == 1 ==> Holds(a, b) && Justified(types, old(assumeMap.Keys), assumeMap.Keys)
      decreases Pairs(types) - assumeMap.Keys, 1
    {
      if a == NIL || b == NIL {
        FixedPoint(types, a, b);
        return 1;
      }
      if (a, b) in conformMap {
        return conformMap[(a, b)];
      }
      r := Decide(a, b, l + 1);
      if l == 0 {
        if r == 1 {
          assert old(assumeMap).Keys == {};
          TopLevel(types, assumeMap.Keys, a, b);
        }
        conformMap := conformMap[(a, b) := r];
      }
    }

    method Decide(a: int, b: int, l: nat) returns (r: int)
      requires Valid() && a in types.defs && b in types.defs
      modifies this`assumeMap, this`conformMap
      ensures Valid() && conformMap == old(conformMap) && (r == 0 || r == 1)
      ensures old(assumeMap.Keys) <= assumeMap.Keys
      ensures r == 0 ==> !Conf(types, a, b)
      ensures r == 1 ==> Holds(a, b) && Justified(types, old(assumeMap.Keys), assumeMap.Keys)
      decreases Pairs(types) - assumeMap.Keys, 0
    {
      FixedPoint(types, a, b);
      if (a, b) in assumeMap {
        return assumeMap[(a, b)];
      }
      if a == types.none || b == types.any {
        return 1;
      }
      if b == types.none {
        return 0;
      }
      if a == b {
        return 1;
      }
      var ta, tb := types.defs[a], types.defs[b];
      if IsVector(tb) {
        if !IsVector(ta) {
          return 0;
        }
      } else if b in types.closed {
        return 0;
      }
      if TestsImmutable(ta.flags, tb.flags) {
        ImmutabilityIgnored(ta.flags, tb.flags);
        return 0;
      }
      if |ta.ops| < |tb.ops| {
        return 0;
      }
      ghost var before := assumeMap.Keys;
      assert (a, b) in Pairs(types) - before;
      assumeMap := assumeMap[(a, b) := 1];
      assert assumeMap.Keys == before + {(a, b)};
      r := CheckOps(a, b, l);
      if r == 1 {
        JustifiedOne(types, before, (a, b), assumeMap.Keys);
      }
    }

    /** The relation that the operations are compared in. */
    ghost function Now(): Rel
      reads this`types, this`assumeMap
    {
      assumeMap.Keys + Confs(types)
    }

    /** Every operation of `b` is looked up in `a`. */
    method CheckOps(a: int, b: int, l: nat) returns (r: int)
      requires Valid() && a in types.defs && b in types.defs && !Granted(types, a, b) && !Refused(types, a, b)
      modifies this`assumeMap, this`conformMap
      ensures Valid() && conformMap == old(conformMap) && (r == 0 || r == 1)
      ensures old(assumeMap.Keys) <= assumeMap.Keys
      ensures r == 0 ==> !Conf(types, a, b)
      ensures r == 1 ==> Allowed(types, Now(), a, b) && Justified(types, old(assumeMap.Keys), assumeMap.Keys)
      decreases Pairs(types) - assumeMap.Keys, 4
    {
      hide Confs, Conf, Justified, OpOk, Pairs, WellFormed, Refused;
      var aops, bops := types.defs[a].ops, types.defs[b].ops;
      var i := 0;
      JustifiedSame(types, assumeMap.Keys);
      while i < |bops|
        invariant 0 <= i <= |bops| && Valid() && conformMap == old(conformMap)
        invariant old(assumeMap.Keys) <= assumeMap.Keys && Justified(types, old(assumeMap.Keys), assumeMap.Keys)
        invariant forall j :: 0 <= j < i ==> OpOk(Now(), aops, bops[j])
      {
        ghost var now, keys := Now(), assumeMap.Keys;
        r := CheckOp(a, b, i, l);
        if r == 0 {
          FixedPoint(types, a, b);
          return;
        }
        JustifiedTrans(types, old(assumeMap.Keys), keys, assumeMap.Keys);
        OpsMore(now, Now(), aops, bops, i);
        i := i + 1;
      }
      r := 1;
    }

    static lemma OpsMore(r: Rel, s: Rel, aops: seq<Op>, bops: seq<Op>, n: int)
      requires r <= s && n <= |bops| && forall j :: 0 <= j < n ==> OpOk(r, aops, bops[j])
      ensures forall j :: 0 <= j < n ==> OpOk(s, aops, bops[j])
    {
      forall j | 0 <= j < n
        ensures OpOk(s, aops, bops[j])
      {
        assert OpOk(r, aops, bops[j]);
      }
    }

    /** The first operation of the same name decides. */
    method CheckOp(a: int, b: int, i: nat, l: nat) returns (r: int)
      requires Valid() && a in types.defs && b in types.defs && i < |types.defs[b].ops|
      modifies this`assumeMap, this`conformMap
      ensures Valid() && conformMap == old(conformMap) && (r == 0 || r == 1)
      ensures old(assumeMap.Keys) <= assumeMap.Keys
      ensures r == 0 ==> !OpOk(Confs(types), types.defs[a].ops, types.defs[b].ops[i])
      ensures r == 1 ==> OpOk(Now(), types.defs[a].ops, types.defs[b].ops[i]) && Justified(types, old(assumeMap.Keys), assumeMap.Keys)
      decreases Pairs(types) - assumeMap.Keys, 3
    {
      var aops, bop := types.defs[a].ops, types.defs[b].ops[i];
      var j, found := 0, false;
      while j < |aops| && !found
        invariant 0 <= j <= |aops| && Match(aops, bop, 0) == Match(aops, bop, j)
        invariant found ==> j < |aops| && Match(aops, bop, 0) == j
        decreases |aops| - j, !found
      {
        if SameName(aops[j], bop) {
          found := true;
        } else {
          j := j + 1;
        }
      }
      if !found {
        return 0;
      }
      var aop := aops[j];
      if bop.isFunction && !aop.isFunction {
        return 0;
      }
      assert RefsKnown(types, aop) && RefsKnown(types, bop);
      r := CheckArguments(aop, bop, l);
      if r == 0 {
        return;
      }
      ghost var now, keys := Now(), assumeMap.Keys;
      r := CheckResults(aop, bop, l);
      if r == 1 {
        JustifiedTrans(types, old(assumeMap.Keys), keys, assumeMap.Keys);
        assert now <= Now();
      }
    }

    method CheckArguments(aop: Op, bop: Op, l: nat) returns (r: int)
      requires Valid() && RefsKnown(types, aop) && RefsKnown(types, bop) && |aop.arguments| == |bop.arguments|
      modifies this`assumeMap, this`conformMap
      ensures Valid() && conformMap == old(conformMap) && (r == 0 || r == 1)
      ensures old(assumeMap.Keys) <= assumeMap.Keys
      ensures r == 0 ==> !ArgumentsOk(Confs(types), aop, bop, |aop.arguments|)
      ensures r == 1 ==> ArgumentsOk(Now(), aop, bop, |aop.arguments|) && Justified(types, old(assumeMap.Keys), assumeMap.Keys)
      decreases Pairs(types) - assumeMap.Keys, 2
    {
      hide Confs, Conf, Justified, ArgumentsOk, ResultsOk, Pairs, WellFormed;
      var k := 0;
      JustifiedSame(types, assumeMap.Keys);
      ArgumentsNone(Now(), aop, bop);
      while k < |aop.arguments|
        invariant 0 <= k <= |aop.arguments| && Valid() && conformMap == old(conformMap)
        invariant old(assumeMap.Keys) <= assumeMap.Keys && Justified(types, old(assumeMap.Keys), assumeMap.Keys) && ArgumentsOk(Now(), aop, bop, k)
      {
        ghost var now, keys := Now(), assumeMap.Keys;
        r := Iconforms(bop.arguments[k], aop.arguments[k], l + 1);
        if r == 0 {
          NotIn(types, bop.arguments[k], aop.arguments[k]);
          ArgumentsNot(Confs(types), aop, bop, k);
          return;
        }
        JustifiedTrans(types, old(assumeMap.Keys), keys, assumeMap.Keys);
        ArgumentsNext(now, Now(), aop, bop, k);
        k := k + 1;
      }
      r := 1;
    }

    method CheckResults(aop: Op, bop: Op, l: nat) returns (r: int)
      requires Valid() && RefsKnown(types, aop) && RefsKnown(types, bop) && |aop.results| == |bop.results|
      modifies this`assumeMap, this`conformMap
      ensures Valid() && conformMap == old(conformMap) && (r == 0 || r == 1)
      ensures old(assumeMap.Keys) <= assumeMap.Keys
      ensures r == 0 ==> !ResultsOk(Confs(types), aop, bop, |aop.results|)
      ensures r == 1 ==> ResultsOk(Now(), aop, bop, |aop.results|) && Justified(types, old(assumeMap.Keys), assumeMap.Keys)
      decreases Pairs(types) - assumeMap.Keys, 2
    {
      hide Confs, Conf, Justified, ArgumentsOk, ResultsOk, Pairs, WellFormed;
      var k := 0;
      JustifiedSame(types, assumeMap.Keys);
      ResultsNone(Now(), aop, bop);
      while k < |aop.results|
        invariant 0 <= k <= |aop.results| && Valid() && conformMap == old(conformMap)
        invariant old(assumeMap.Keys) <= assumeMap.Keys && Justified(types, old(assumeMap.Keys), assumeMap.Keys) && ResultsOk(Now(), aop, bop, k)
      {
        ghost var now, keys := Now(), assumeMap.Keys;
        r := Iconforms(aop.results[k], bop.results[k], l + 1);
        if r == 0 {
          NotIn(types, aop.results[k], bop.results[k]);
          ResultsNot(Confs(types), aop, bop, k);
          return;
        }
        JustifiedTrans(types, old(assumeMap.Keys), keys, assumeMap.Keys);
        ResultsNext(now, Now(), aop, bop, k);
        k := k + 1;
      }
      r := 1;
    }

    static lemma NotIn(g: Types, a: int, b: int)
      requires !Conf(g, a, b)
      ensures (a, b) !in Confs(g)
    {
    }
  }
}
