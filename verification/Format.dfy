/** The checkpoint format of vm/write.c and vm/read.c in "do everything" mode:
    templates, what traversal, writing and reading do to the words of an object,
    and the records of the stream. */
module CheckpointFormat {

  const NIL: int := -1
  const NOOID: int := -1

  // ----- templates -----

  /** What a template says of a field: references, variables (a datum and its
      type), words, or bytes. */
  datatype Brand = Refs | Vars | Words | Bytes

  /** `count` fields, or as many as the word before them says. */
  datatype Field = Field(brand: Brand, count: nat, star: bool)

  datatype Kind = Plain | Pointer | VarData | VarType

  /** The words that `n` fields take; arrays of bytes are packed. */
  function Span(f: Field, n: nat): nat {
    match f.brand
    case Refs => n
    case Vars => 2 * n
    case Words => n
    case Bytes => if f.star then (n + 3) / 4 else n
  }

  function KindAt(b: Brand, i: nat): Kind {
    match b
    case Refs => Pointer
    case Vars => if i % 2 == 0 then VarData else VarType
    case _ => Plain
  }

  function Kinds(f: Field, n: nat): (r: seq<Kind>)
    ensures |r| == Span(f, n)
  {
    seq(Span(f, n), i requires 0 <= i < Span(f, n) => KindAt(f.brand, i))
  }

  datatype Option<T> = None | Some(value: T)

  /** The kinds of the words `ws` under a template; None if they do not fit it. */
  function Layout(t: seq<Field>, ws: seq<int>): (r: Option<seq<Kind>>)
    ensures r.Some? ==> |r.value| == |ws|
    decreases |t|
  {
    if t == [] then
      if ws == [] then Some([]) else None
    else if t[0].star then
      if ws == [] || ws[0] < 0 || 1 + Span(t[0], ws[0]) > |ws| then None
      else
        var rest := Layout(t[1..], ws[1 + Span(t[0], ws[0])..]);
        if rest.None? then None else Some([Plain] + Kinds(t[0], ws[0]) + rest.value)
    else
      if Span(t[0], t[0].count) > |ws| then None
      else
        var rest := Layout(t[1..], ws[Span(t[0], t[0].count)..]);
        if rest.None? then None else Some(Kinds(t[0], t[0].count) + rest.value)
  }

  /** `ws'` differs from `ws` in no plain word. */
  ghost predicate SamePlain(ks: seq<Kind>, ws: seq<int>, ws': seq<int>) {
    |ws'| == |ws| == |ks| && forall i :: 0 <= i < |ks| && ks[i] == Plain ==> ws'[i] == ws[i]
  }

  /** The layout depends on plain words only, so it can be found before and after
      references are replaced. */
  lemma {:induction false} LayoutSame(t: seq<Field>, ws: seq<int>, ws': seq<int>)
    requires Layout(t, ws).Some? && SamePlain(Layout(t, ws).value, ws, ws')
    ensures Layout(t, ws') == Layout(t, ws)
    decreases |t|
  {
    if t != [] {
      var ks := Layout(t, ws).value;
      var n := if t[0].star then 1 + Span(t[0], ws[0]) else Span(t[0], t[0].count);
      if t[0].star {
        assert ks[0] == Plain && ws'[0] == ws[0];
      }
      var rest := Layout(t[1..], ws[n..]);
      assert rest.Some? && ks[n..] == rest.value;
      forall i | 0 <= i < |rest.value| && rest.value[i] == Plain
        ensures ws'[n..][i] == ws[n..][i]
      {
        assert ks[n + i] == Plain;
      }
      LayoutSame(t[1..], ws[n..], ws'[n..]);
    }
  }

  /** A variable's datum is followed by its type. */
  ghost predicate Paired(ks: seq<Kind>) {
    && (forall i :: 0 <= i < |ks| && ks[i] == VarData ==> i + 1 < |ks| && ks[i + 1] == VarType)
    && (forall i :: 0 <= i < |ks| && ks[i] == VarType ==> i > 0 && ks[i - 1] == VarData)
  }

  lemma KindsPaired(f: Field, n: nat)
    ensures Paired(Kinds(f, n))
  {
    var ks := Kinds(f, n);
    forall i | 0 <= i < |ks| && ks[i] == VarData
      ensures i + 1 < |ks| && ks[i + 1] == VarType
    {
      assert KindAt(f.brand, i) == VarData;
      assert i % 2 == 0 && i + 1 < 2 * n;
      assert ks[i + 1] == KindAt(f.brand, i + 1);
    }
    forall i | 0 <= i < |ks| && ks[i] == VarType
      ensures i > 0 && ks[i - 1] == VarData
    {
      assert KindAt(f.brand, i) == VarType;
      assert ks[i - 1] == KindAt(f.brand, i - 1);
    }
  }

  lemma PairedConcat(a: seq<Kind>, b: seq<Kind>)
    requires Paired(a) && Paired(b)
    ensures Paired(a + b)
  {
    var ks := a + b;
    forall i | 0 <= i < |ks| && ks[i] == VarData
      ensures i + 1 < |ks| && ks[i + 1] == VarType
    {
      if i >= |a| {
        assert b[i - |a|] == VarData;
      }
    }
    forall i | 0 <= i < |ks| && ks[i] == VarType
      ensures i > 0 && ks[i - 1] == VarData
    {
      if i >= |a| {
        assert b[i - |a|] == VarType;
      }
    }
  }

  lemma {:induction false} LayoutPaired(t: seq<Field>, ws: seq<int>)
    requires Layout(t, ws).Some?
    ensures Paired(Layout(t, ws).value)
    decreases |t|
  {
    if t != [] {
      if t[0].star {
        LayoutPaired(t[1..], ws[1 + Span(t[0], ws[0])..]);
        KindsPaired(t[0], ws[0]);
        PairedConcat([Plain], Kinds(t[0], ws[0]));
        PairedConcat([Plain] + Kinds(t[0], ws[0]), Layout(t[1..], ws[1 + Span(t[0], ws[0])..]).value);
      } else {
        LayoutPaired(t[1..], ws[Span(t[0], t[0].count)..]);
        KindsPaired(t[0], t[0].count);
        PairedConcat(Kinds(t[0], t[0].count), Layout(t[1..], ws[Span(t[0], t[0].count)..]).value);
      }
    }
  }

  /** Field `f` takes the words from `s` up to `e`: an array stands behind the
      word that holds its length; references are pointers, variables a datum and
      a type each, and arrays of bytes take four to a word. */
  ghost predicate FieldLaid(f: Field, ws: seq<int>, ks: seq<Kind>, s: int, e: int) {
    && 0 <= s <= e <= |ws| == |ks|
    && (f.star ==> s < e && ws[s] >= 0 && ks[s] == Plain)
    && var b, n := if f.star then s + 1 else s, if f.star then ws[s] else f.count;
       match f.brand
       case Refs => e == b + n && forall k :: b <= k < e ==> ks[k] == Pointer
       case Vars => e == b + 2 * n && forall k :: b <= k < e ==> ks[k] == if (k - b) % 2 == 0 then VarData else VarType
       case Words => e == b + n && forall k :: b <= k < e ==> ks[k] == Plain
       case Bytes => e == b + (if f.star then (n + 3) / 4 else n) && forall k :: b <= k < e ==> ks[k] == Plain
  }

  /** The fields of a template follow one another, with nothing left over. */
  ghost predicate FieldsLaid(t: seq<Field>, ws: seq<int>, ks: seq<Kind>, start: seq<int>) {
    && |start| == |t| + 1 && start[0] == 0 && start[|t|] == |ws| == |ks|
    && forall i :: 0 <= i < |t| ==> FieldLaid(t[i], ws, ks, start[i], start[i + 1])
  }

  /** Word by word: where field `i` begins and ends, and what the word at `k` of it is. */
  lemma WordKind(t: seq<Field>, ws: seq<int>, ks: seq<Kind>, start: seq<int>, i: nat, k: int)
    requires FieldsLaid(t, ws, ks, start) && i < |t|
    ensures |start| == |t| + 1 && start[0] == 0 && start[|t|] == |ws| == |ks| && 0 <= start[i] <= start[i + 1] <= |ws|
    ensures t[i].star ==> start[i] < |ws| && ws[start[i]] >= 0 && ks[start[i]] == Plain
    ensures var h, n := if t[i].star then 1 else 0, if t[i].star then ws[start[i]] else t[i].count;
            && (t[i].brand == Refs || t[i].brand == Words ==> start[i + 1] - start[i] == h + n)
            && (t[i].brand == Vars ==> start[i + 1] - start[i] == h + 2 * n)
            && (t[i].brand == Bytes ==> start[i + 1] - start[i] == h + (if t[i].star then (n + 3) / 4 else n))
            && (start[i] + h <= k < start[i + 1] ==>
                  && (t[i].brand == Refs ==> ks[k] == Pointer)
                  && (t[i].brand == Vars ==> ks[k] == if (k - start[i] - h) % 2 == 0 then VarData else VarType)
                  && (t[i].brand == Words || t[i].brand == Bytes ==> ks[k] == Plain))
  {
    assert FieldLaid(t[i], ws, ks, start[i], start[i + 1]);
  }

  /** Words fit a template if and only if its fields can be laid on them. */
  lemma {:induction false} LayoutFields(t: seq<Field>, ws: seq<int>) returns (start: seq<int>)
    requires Layout(t, ws).Some?
    ensures FieldsLaid(t, ws, Layout(t, ws).value, start)
    decreases |t|
  {
    if t == [] {
      start := [0];
    } else {
      hide Layout, Kinds, Span, FieldLaid;
      var f, n, w := LayoutParts(t, ws);
      var rest := LayoutFields(t[1..], ws[w..]);
      var ks, after := Layout(t, ws).value, Layout(t[1..], ws[w..]).value;
      FirstField(f, n, ws, ks, after);
      assert ks[w..] == after;
      start := [0] + Shift(rest, w);
      FieldsJoin(t, ws, ks, w, rest);
    }
  }

  function Shift(s: seq<int>, w: int): (r: seq<int>)
    ensures |r| == |s| && forall j :: 0 <= j < |s| ==> r[j] == s[j] + w
  {
    seq(|s|, j requires 0 <= j < |s| => s[j] + w)
  }

  lemma FieldsJoin(t: seq<Field>, ws: seq<int>, ks: seq<Kind>, w: nat, rest: seq<int>)
    requires t != [] && w <= |ws| == |ks| && FieldLaid(t[0], ws, ks, 0, w) && FieldsLaid(t[1..], ws[w..], ks[w..], rest)
    ensures FieldsLaid(t, ws, ks, [0] + Shift(rest, w))
  {
    hide FieldLaid;
    var start := [0] + Shift(rest, w);
    assert start[1] == w;
    forall i | 0 <= i < |t|
      ensures FieldLaid(t[i], ws, ks, start[i], start[i + 1])
    {
      if i > 0 {
        assert FieldLaid(t[1..][i - 1], ws[w..], ks[w..], rest[i - 1], rest[i - 1 + 1]);
        LaidFurther(t[i], ws, ks, ks[w..], w, rest[i - 1], rest[i]);
      }
    }
  }

  /** The first field, and the rest. */
  lemma LayoutParts(t: seq<Field>, ws: seq<int>) returns (f: Field, n: nat, w: nat)
    requires t != [] && Layout(t, ws).Some?
    ensures f == t[0] && w <= |ws| && Layout(t[1..], ws[w..]).Some?
    ensures (if f.star then ws != [] && ws[0] == n else n == f.count) && w == (if f.star then 1 else 0) + |Kinds(f, n)|
    ensures Layout(t, ws).value == (if f.star then [Plain] else []) + Kinds(f, n) + Layout(t[1..], ws[w..]).value
  {
    f := t[0];
    n := if f.star then ws[0] else f.count;
    w := (if f.star then 1 else 0) + Span(f, n);
  }

  lemma PartsLayout(t: seq<Field>, ws: seq<int>, n: nat, w: nat)
    requires t != [] && (if t[0].star then ws != [] && ws[0] == n else n == t[0].count) && w == (if t[0].star then 1 else 0) + Span(t[0], n) <= |ws|
    requires Layout(t[1..], ws[w..]).Some?
    ensures Layout(t, ws) == Some((if t[0].star then [Plain] else []) + Kinds(t[0], n) + Layout(t[1..], ws[w..]).value)
  {
    hide Kinds, Span;
    assert [] + Kinds(t[0], n) == Kinds(t[0], n);
  }

  lemma LaidFurther(f: Field, ws: seq<int>, ks: seq<Kind>, after: seq<Kind>, w: nat, s: int, e: int)
    requires w <= |ws| == |ks| && after == ks[w..] && FieldLaid(f, ws[w..], after, s, e)
    ensures FieldLaid(f, ws, ks, w + s, w + e)
  {
    assert forall k :: w + s <= k < w + e ==> ks[k] == after[k - w];
    assert s < e ==> ws[w + s] == ws[w..][s];
  }

  lemma FirstField(f: Field, n: nat, ws: seq<int>, ks: seq<Kind>, after: seq<Kind>)
    requires ks == (if f.star then [Plain] else []) + Kinds(f, n) + after && |ks| == |ws|
    requires if f.star then ws[0] == n else n == f.count
    ensures FieldLaid(f, ws, ks, 0, |ks| - |after|)
  {
    var h := if f.star then 1 else 0;
    forall k | h <= k < |ks| - |after|
      ensures ks[k] == KindAt(f.brand, k - h)
    {
      assert ks[k] == Kinds(f, n)[k - h];
    }
  }

  lemma {:induction false} FieldsFit(t: seq<Field>, ws: seq<int>, ks: seq<Kind>, start: seq<int>)
    requires FieldsLaid(t, ws, ks, start)
    ensures Layout(t, ws) == Some(ks)
    decreases |t|
  {
    if t == [] {
      assert ws == [] && ks == [];
    } else {
      var f, w := t[0], start[1];
      assert FieldLaid(f, ws, ks, 0, w);
      var n := if f.star then ws[0] else f.count;
      hide FieldLaid, Layout, Kinds, Span;
      StartsUp(t, ws, ks, start);
      FieldsRest(t, ws, ks, start);
      FieldsFit(t[1..], ws[w..], ks[w..], Shift(start[1..], -w));
      FirstKinds(f, n, ws, ks, w);
      PartsLayout(t, ws, n, w);
    }
  }

  lemma FieldsRest(t: seq<Field>, ws: seq<int>, ks: seq<Kind>, start: seq<int>)
    requires t != [] && FieldsLaid(t, ws, ks, start) && forall i :: 0 < i <= |t| ==> 0 <= start[1] <= start[i]
    ensures FieldsLaid(t[1..], ws[start[1]..], ks[start[1]..], Shift(start[1..], -start[1]))
  {
    hide FieldLaid;
    var w, rest := start[1], Shift(start[1..], -start[1]);
    forall i | 0 <= i < |t| - 1
      ensures FieldLaid(t[1..][i], ws[w..], ks[w..], rest[i], rest[i + 1])
    {
      assert FieldLaid(t[i + 1], ws, ks, start[i + 1], start[i + 1 + 1]);
      LaidNearer(t[i + 1], ws, ks, w, start[i + 1], start[i + 2]);
    }
  }

  lemma LaidNearer(f: Field, ws: seq<int>, ks: seq<Kind>, w: nat, s: int, e: int)
    requires FieldLaid(f, ws, ks, s, e) && w <= s
    ensures FieldLaid(f, ws[w..], ks[w..], s - w, e - w)
  {
    assert forall k :: s <= k < e ==> ks[w..][k - w] == ks[k];
    assert s < e ==> ws[w..][s - w] == ws[s];
  }

  lemma {:induction false} StartsUp(t: seq<Field>, ws: seq<int>, ks: seq<Kind>, start: seq<int>)
    requires FieldsLaid(t, ws, ks, start)
    ensures forall i, j :: 0 <= i <= j <= |t| ==> start[i] <= start[j]
  {
    forall j, i | 0 <= i <= j <= |t|
      ensures start[i] <= start[j]
    {
      StartUp(t, ws, ks, start, i, j);
    }
  }

  lemma {:induction false} StartUp(t: seq<Field>, ws: seq<int>, ks: seq<Kind>, start: seq<int>, i: int, j: int)
    requires FieldsLaid(t, ws, ks, start) && 0 <= i <= j <= |t|
    ensures start[i] <= start[j]
    decreases j - i
  {
    if i < j {
      assert FieldLaid(t[i], ws, ks, start[i], start[i + 1]);
      StartUp(t, ws, ks, start, i + 1, j);
    }
  }

  lemma FirstKinds(f: Field, n: nat, ws: seq<int>, ks: seq<Kind>, w: int)
    requires FieldLaid(f, ws, ks, 0, w) && (if f.star then n == ws[0] else n == f.count)
    ensures w == (if f.star then 1 else 0) + Span(f, n)
    ensures ks == (if f.star then [Plain] else []) + Kinds(f, n) + ks[w..]
  {
    var h := if f.star then 1 else 0;
    assert ks[h..w] == Kinds(f, n);
    assert ks == ks[..h] + ks[h..w] + ks[w..];
  }

  // ----- what is done to the words of an object -----

  /** The word at `i` holds a reference: a variable's datum does if its type says so. */
  predicate IsRef(ks: seq<Kind>, ws: seq<int>, odp: set<int>, i: int)
    requires |ws| == |ks| && 0 <= i < |ks|
  {
    match ks[i]
    case Plain => false
    case Pointer => true
    case VarType => true
    case VarData => i + 1 < |ws| && (ws[i + 1] == NIL || ws[i + 1] in odp)
  }

  /** Every reference replaced by what `f` says; NIL stays. */
  function Replace(ks: seq<Kind>, ws: seq<int>, odp: set<int>, f: map<int, int>): (r: seq<int>)
    requires |ws| == |ks|
    ensures |r| == |ws|
  {
    seq(|ws|, i requires 0 <= i < |ws| =>
      if IsRef(ks, ws, odp, i) && ws[i] != NIL && ws[i] in f then f[ws[i]] else ws[i])
  }

  lemma ReplacePlain(ks: seq<Kind>, ws: seq<int>, odp: set<int>, f: map<int, int>)
    requires |ws| == |ks|
    ensures SamePlain(ks, ws, Replace(ks, ws, odp, f))
  {
  }

  /** All references are to known things. */
  ghost predicate RefsIn(ks: seq<Kind>, ws: seq<int>, odp: set<int>, known: set<int>) {
    |ws| == |ks| && forall i :: 0 <= i < |ks| && IsRef(ks, ws, odp, i) ==> ws[i] == NIL || ws[i] in known
  }

  /** Replacing twice is replacing by the composition, when the first replacement
      keeps the types that make data references apart from the others. */
  lemma ReplaceTwice(ks: seq<Kind>, ws: seq<int>, odp: set<int>, f: map<int, int>, odp1: set<int>, g: map<int, int>, h: map<int, int>)
    requires Paired(ks) && RefsIn(ks, ws, odp, f.Keys)
    requires forall x :: x in f ==> f[x] != NIL && f[x] in g && x in h && h[x] == g[f[x]] && (f[x] in odp1 <==> x in odp)
    ensures Replace(ks, Replace(ks, ws, odp, f), odp1, g) == Replace(ks, ws, odp, h)
  {
    var ws1 := Replace(ks, ws, odp, f);
    forall i | 0 <= i < |ws|
      ensures Replace(ks, ws1, odp1, g)[i] == Replace(ks, ws, odp, h)[i]
    {
      if ks[i] == VarData {
        assert ks[i + 1] == VarType && IsRef(ks, ws, odp, i + 1);
      }
      assert IsRef(ks, ws1, odp1, i) <==> IsRef(ks, ws, odp, i);
    }
  }

  /** What traversal does to a variable without a datum: its type is dropped if
      it is one whose data are references. */
  function Normal(ks: seq<Kind>, ws: seq<int>, odp: set<int>): (r: seq<int>)
    requires |ws| == |ks|
    ensures |r| == |ws|
  {
    seq(|ws|, i requires 0 <= i < |ws| =>
      if ks[i] == VarType && i > 0 && ws[i - 1] == NIL && ws[i] in odp then NIL else ws[i])
  }

  lemma NormalPlain(ks: seq<Kind>, ws: seq<int>, odp: set<int>)
    requires |ws| == |ks|
    ensures SamePlain(ks, ws, Normal(ks, ws, odp))
  {
  }

  // ----- records -----

  datatype Token = Sig(s: Signature) | Num(n: int) | Oid(id: int) | Node(srv: int)

  datatype Signature = Extern | Stub | WithID | WithoutID

  const WORD: int := 4
  const OIDSIZE: int := 12

  /** One entry of the stream: an identifier only, a stub, or an object. */
  datatype Record =
    | External(oid: int)
    | StubOf(oid: int, size: nat, ct: int, srv: int)
    | Whole(oid: int, ct: int, words: seq<int>)

  function Nums(ws: seq<int>): (r: seq<Token>)
    ensures |r| == |ws| && forall i :: 0 <= i < |ws| ==> r[i] == Num(ws[i])
  {
    seq(|ws|, i requires 0 <= i < |ws| => Num(ws[i]))
  }

  /** What writeone writes for it. */
  function Tokens(r: Record): (ts: seq<Token>)
    ensures ts != [] && ts[0].Sig?
  {
    match r
    case External(oid) => [Sig(Extern), Oid(oid)]
    case StubOf(oid, size, ct, srv) => [Sig(Stub), Oid(oid), Num(WORD * (size + 1)), Num(ct), Node(srv)]
    case Whole(oid, ct, words) =>
      if oid == NOOID then [Sig(WithoutID), Num(WORD * (|words| + 1)), Num(ct)] + Nums(words)
      else [Sig(WithID), Num(WORD * (|words| + 1) + OIDSIZE), Oid(oid), Num(ct)] + Nums(words)
  }

  function Flatten(rs: seq<Record>): seq<Token> {
    if rs == [] then [] else Tokens(rs[0]) + Flatten(rs[1..])
  }

  lemma {:induction false} FlattenSnoc(rs: seq<Record>, r: Record)
    ensures Flatten(rs + [r]) == Flatten(rs) + Tokens(r)
    decreases |rs|
  {
    hide Tokens;
    if rs == [] {
      assert rs + [r] == [r];
      assert [r][1..] == [];
    } else {
      assert (rs + [r])[1..] == rs[1..] + [r];
      FlattenSnoc(rs[1..], r);
      assert Flatten(rs + [r]) == Tokens(rs[0]) + (Flatten(rs[1..]) + Tokens(r));
    }
  }

  /** An object: what its OID is (NOOID if it has none), whether it is builtin
      and resident, its type, its words, and where it lives if it is not resident. */
  datatype Obj = Obj(oid: int, builtin: bool, resident: bool, ct: int, words: seq<int>, srv: int)
}
