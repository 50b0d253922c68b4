/** The bookkeeping of the old-generation compactor (findBoundary and fillUp in
    vm/gc.c): how the swept space is divided into live objects, chunks reserved
    for live objects not yet reached, holes still to be reserved, and waste. */
module CompactionPlan {
  import opened Heap
  import opened SizeTable

  /** `live`: the marked objects; `len`: the sizes of all objects before the
      collection; `tile`: the division of the swept space; `lists`: for every
      size, the chunks on its free list, first one first. */
  datatype Plan = Plan(live: set<int>, len: map<int, int>, tile: map<int, int>, lists: map<int, seq<int>>)

  function Chunks(lists: map<int, seq<int>>, s: int): seq<int> {
    if s in lists then lists[s] else []
  }

  /** Address `c` starts a chunk on a free list. */
  ghost predicate IsChunk(p: Plan, c: int) {
    c in p.tile && c in Chunks(p.lists, p.tile[c])
  }

  /** The head of the free list of size `s`, as a lookup answers it. */
  function ListHead(heads: map<int, int>, s: int): int {
    if s in heads then heads[s] else Absent(s)
  }

  /** What the flags word of the `i`th member of a list points to. */
  function After(list: seq<int>, i: nat, end: int): int
    requires i < |list|
  {
    if i + 1 < |list| then list[i + 1] else end
  }

  /** A list threaded through the flags words of its members. */
  ghost predicate Chained(m: seq<Word>, head: int, list: seq<int>, end: int) {
    && head == (if list == [] then end else list[0])
    && (forall i :: 0 <= i < |list| ==> 0 <= list[i] < |m| && m[list[i]] == Link(After(list, i, end)))
  }

  lemma ChainPush(m: seq<Word>, head: int, list: seq<int>, end: int, c: int)
    requires Chained(m, head, list, end) && 0 <= c < |m| && c !in list
    ensures Chained(m[c := Link(head)], c, [c] + list, end)
  {
    var m', list' := m[c := Link(head)], [c] + list;
    forall i | 0 <= i < |list'|
      ensures 0 <= list'[i] < |m'| && m'[list'[i]] == Link(After(list', i, end))
    {
      if i > 0 {
        assert list'[i] == list[i - 1];
        assert After(list', i, end) == After(list, i - 1, end);
      }
    }
  }

  lemma ChainPop(m: seq<Word>, head: int, list: seq<int>, end: int)
    requires Chained(m, head, list, end) && list != []
    ensures 0 <= head < |m| && m[head].Link? && Chained(m, m[head].next, list[1..], end)
  {
    var rest := list[1..];
    assert m[list[0]] == Link(After(list, 0, end));
    forall i | 0 <= i < |rest|
      ensures 0 <= rest[i] < |m| && m[rest[i]] == Link(After(rest, i, end))
    {
      assert rest[i] == list[i + 1];
      assert After(rest, i, end) == After(list, i + 1, end);
    }
  }

  lemma ChainFrame(m: seq<Word>, m': seq<Word>, head: int, list: seq<int>, end: int)
    requires Chained(m, head, list, end) && |m'| == |m|
    requires forall c :: c in list ==> 0 <= c < |m| && m'[c] == m[c]
    ensures Chained(m', head, list, end)
  {
    assert forall i :: 0 <= i < |list| ==> list[i] in list;
  }

  lemma ChainWrite(m: seq<Word>, head: int, list: seq<int>, end: int, k: int, w: Word)
    requires Chained(m, head, list, end) && 0 <= k < |m| && k !in list
    ensures Chained(m[k := w], head, list, end)
  {
  }

  /** The free lists are threaded through memory, each from its head. */
  ghost predicate Threaded(m: seq<Word>, heads: map<int, int>, lists: map<int, seq<int>>) {
    forall s {:trigger Chunks(lists, s)} :: Chained(m, ListHead(heads, s), Chunks(lists, s), Absent(s))
  }

  ghost predicate NoDup(list: seq<int>) {
    forall i, j :: 0 <= i < j < |list| ==> list[i] != list[j]
  }

  /** Every chunk of a list is a tile of the list's size without a live object. */
  ghost predicate ListTiled(tile: map<int, int>, live: set<int>, s: int, list: seq<int>) {
    && NoDup(list)
    && (forall c :: c in list ==> c in tile && tile[c] == s && c !in live)
  }

  ghost predicate ListsTiled(p: Plan) {
    forall s {:trigger Chunks(p.lists, s)} :: ListTiled(p.tile, p.live, s, Chunks(p.lists, s))
  }

  /** What an unreserved remainder is made to look like (recordSize): a dead
      object that fills it. */
  ghost predicate IsFiller(m: seq<Word>, a: int, n: int) {
    0 <= a < |m| && m[a].Head? && m[a].size == n && !m[a].mark && m[a].ct == NIL
  }

  /** The swept space `[lo, o)` is divided into live objects, chunks, the
      `holes`, and fillers. */
  ghost predicate Laid(m: seq<Word>, p: Plan, lo: int, o: int, holes: set<int>) {
    && 1 <= lo && o <= |m| && Tiling(p.tile, lo, o)
    && (forall a :: a in p.live ==> a in p.len && (a < o ==> a in p.tile && p.tile[a] == p.len[a]))
    && ListsTiled(p)
    && (forall h :: h in holes ==> h in p.tile && h !in p.live && !IsChunk(p, h))
    && (forall a :: a in p.tile && a !in p.live && a !in holes && !IsChunk(p, a) ==> IsFiller(m, a, p.tile[a]))
  }

  /** No word of a marked object differs from the snapshot `hm`. */
  ghost predicate LiveKept(m: seq<Word>, hm: seq<Word>, p: Plan) {
    |m| == |hm| && forall a, k :: a in p.live && a in p.len && a <= k < a + p.len[a] && 0 <= k < |m| ==> m[k] == hm[k]
  }

  /** Nothing from address `o` on differs from the snapshot. */
  ghost predicate Untouched(m: seq<Word>, hm: seq<Word>, o: int) {
    |m| == |hm| && forall k :: 0 <= k < |m| && o <= k ==> m[k] == hm[k]
  }

  // ----- sweeping -----

  lemma SweepLive(m: seq<Word>, p: Plan, lo: int, o: int, holes: set<int>, n: int)
    requires Laid(m, p, lo, o, holes)
    requires o in p.live && p.len[o] == n >= 1 && o + n <= |m|
    requires forall a :: a in p.live && o < a ==> o + n <= a
    ensures Laid(m, p.(tile := p.tile[o := n]), lo, o + n, holes)
  {
    TilingAppend(p.tile, lo, o, n);
    assert o !in p.tile;
  }

  lemma SweepDead(m: seq<Word>, p: Plan, lo: int, o: int, holes: set<int>, n: int)
    requires Laid(m, p, lo, o, holes)
    requires o !in p.live && n >= 1 && o + n <= |m|
    requires forall a :: a in p.live && o < a ==> o + n <= a
    ensures Laid(m, p.(tile := p.tile[o := n]), lo, o + n, holes + {o})
  {
    TilingAppend(p.tile, lo, o, n);
    assert o !in p.tile;
  }

  lemma SweepHole(m: seq<Word>, p: Plan, lo: int, o: int, holes: set<int>, hole: int, n: int)
    requires Laid(m, p, lo, o, holes)
    requires o !in p.live && n >= 1 && o + n <= |m|
    requires forall a :: a in p.live && o < a ==> o + n <= a
    requires hole in holes && hole + p.tile[hole] == o
    ensures Laid(m, p.(tile := p.tile[hole := p.tile[hole] + n]), lo, o + n, holes)
  {
    hide Tiling, ListsTiled, IsChunk;
    TilingGrow(p.tile, lo, o, hole, n);
    var p' := p.(tile := p.tile[hole := p.tile[hole] + n]);
    GrownLists(p, lo, o, hole, n);
    forall a | a in p'.tile && a !in p'.live && a !in holes && !IsChunk(p', a)
      ensures IsFiller(m, a, p'.tile[a])
    {
      assert a != hole && p'.tile[a] == p.tile[a];
    }
  }

  lemma GrownLists(p: Plan, lo: int, o: int, hole: int, n: int)
    requires Tiling(p.tile, lo, o) && ListsTiled(p)
    requires hole in p.tile && !IsChunk(p, hole)
    ensures var p' := p.(tile := p.tile[hole := p.tile[hole] + n]);
            ListsTiled(p') && forall a :: IsChunk(p', a) <==> IsChunk(p, a)
  {
    var p' := p.(tile := p.tile[hole := p.tile[hole] + n]);
    forall s
      ensures ListTiled(p'.tile, p'.live, s, Chunks(p'.lists, s)) && hole !in Chunks(p.lists, s)
    {
      assert ListTiled(p.tile, p.live, s, Chunks(p.lists, s));
    }
  }

  /** The sweep reaches a live object after a hole: the hole is put on the list
      of holes, which goes through its flags word. */
  lemma WriteHole(m: seq<Word>, p: Plan, lo: int, o: int, holes: set<int>, hole: int, w: Word)
    requires Laid(m, p, lo, o, holes) && hole in holes
    ensures Laid(m[hole := w], p, lo, o, holes)
  {
  }

  /** A write inside a tile without live objects leaves the live ones alone. */
  lemma WriteKeepsLive(m: seq<Word>, hm: seq<Word>, p: Plan, lo: int, o: int, holes: set<int>, c: int, k: int, w: Word)
    requires Laid(m, p, lo, o, holes) && LiveKept(m, hm, p) && Untouched(m, hm, o)
    requires c in p.tile && c !in p.live && c <= k < c + p.tile[c]
    ensures LiveKept(m[k := w], hm, p) && Untouched(m[k := w], hm, o)
  {
    forall a, j | a in p.live && a in p.len && a <= j < a + p.len[a] && 0 <= j < |m|
      ensures m[k := w][j] == hm[j]
    {
      assert a < o ==> a in p.tile && p.tile[a] == p.len[a];
    }
  }

  /** A write that hits no chunk's flags word keeps the lists threaded. */
  lemma WriteKeepsThreads(m: seq<Word>, p: Plan, lo: int, o: int, holes: set<int>, heads: map<int, int>, k: int, w: Word)
    requires Laid(m, p, lo, o, holes) && Threaded(m, heads, p.lists)
    requires 0 <= k < |m| && !IsChunk(p, k)
    ensures Threaded(m[k := w], heads, p.lists)
  {
    forall s
      ensures Chained(m[k := w], ListHead(heads, s), Chunks(p.lists, s), Absent(s))
    {
      ChainFrame(m, m[k := w], ListHead(heads, s), Chunks(p.lists, s), Absent(s));
    }
  }

  // ----- reserving holes -----

  /** The first `n` words of hole `c` become a chunk at the front of list `n`;
      what is left stays a hole. */
  function Reserve(p: Plan, c: int, n: int): (p': Plan)
    requires c in p.tile
    ensures p'.live == p.live && p'.len == p.len && p.tile.Keys <= p'.tile.Keys
  {
    p.(tile := if n < p.tile[c] then Split(p.tile, c, n) else p.tile,
       lists := p.lists[n := [c] + Chunks(p.lists, n)])
  }

  function ReserveHoles(p: Plan, holes: set<int>, c: int, n: int): set<int>
    requires c in p.tile
  {
    holes - {c} + (if n < p.tile[c] then {c + n} else {})
  }

  lemma ReserveLists(p: Plan, lo: int, o: int, c: int, n: int)
    requires Tiling(p.tile, lo, o) && ListsTiled(p)
    requires c in p.tile && c !in p.live && !IsChunk(p, c) && 1 <= n <= p.tile[c]
    ensures ListsTiled(Reserve(p, c, n))
    ensures c !in Chunks(p.lists, n)
  {
    var p' := Reserve(p, c, n);
    if n < p.tile[c] {
      TilingSplit(p.tile, lo, o, c, n);
    }
    forall s
      ensures ListTiled(p'.tile, p'.live, s, Chunks(p'.lists, s))
    {
      var list := Chunks(p.lists, s);
      assert ListTiled(p.tile, p.live, s, list);
      if s == n {
        NoDupPush(list, c);
      } else {
        assert c !in list;
      }
    }
  }

  lemma NoDupPush(list: seq<int>, c: int)
    requires NoDup(list) && c !in list
    ensures NoDup([c] + list)
  {
    var list' := [c] + list;
    forall i, j | 0 <= i < j < |list'|
      ensures list'[i] != list'[j]
    {
      assert list'[j] == list[j - 1];
      assert list'[j] in list;
    }
  }

  lemma NoDupPop(list: seq<int>)
    requires NoDup(list) && list != []
    ensures NoDup(list[1..]) && list[0] !in list[1..]
    ensures forall a :: a in list <==> a == list[0] || a in list[1..]
  {
    assert list == [list[0]] + list[1..];
  }

  lemma ReserveLaid(m: seq<Word>, p: Plan, lo: int, o: int, holes: set<int>, c: int, n: int, w: Word)
    requires Laid(m, p, lo, o, holes) && c in holes && 1 <= n <= p.tile[c]
    ensures Laid(m[c := w], Reserve(p, c, n), lo, o, ReserveHoles(p, holes, c, n))
  {
    var p', holes' := Reserve(p, c, n), ReserveHoles(p, holes, c, n);
    ReserveLists(p, lo, o, c, n);
    if n < p.tile[c] {
      TilingSplit(p.tile, lo, o, c, n);
      assert c + n !in p.live;
    }
    forall h | h in holes'
      ensures h in p'.tile && h !in p'.live && !IsChunk(p', h)
    {
      ReserveChunk(p, lo, o, c, n, h);
    }
    forall a | a in p'.tile && a !in p'.live && a !in holes' && !IsChunk(p', a)
      ensures IsFiller(m[c := w], a, p'.tile[a])
    {
      ReserveChunk(p, lo, o, c, n, a);
      assert a != c;
    }
  }

  /** The chunks after a reservation are those before and the new one. */
  lemma ReserveChunk(p: Plan, lo: int, o: int, c: int, n: int, a: int)
    requires Tiling(p.tile, lo, o) && ListsTiled(p)
    requires c in p.tile && c !in p.live && !IsChunk(p, c) && 1 <= n <= p.tile[c]
    ensures IsChunk(Reserve(p, c, n), a) <==> a == c || IsChunk(p, a)
  {
    if n < p.tile[c] {
      TilingSplit(p.tile, lo, o, c, n);
    }
    var p' := Reserve(p, c, n);
    assert Chunks(p'.lists, n) == [c] + Chunks(p.lists, n);
    assert c in Chunks(p'.lists, n);
    assert p'.tile[c] == n;
    if a == c + n && IsChunk(p', a) {
      assert a in Chunks(p.lists, p'.tile[a]);
    }
  }

  lemma ReserveThreads(m: seq<Word>, p: Plan, lo: int, o: int, holes: set<int>, heads: map<int, int>, c: int, n: int)
    requires Laid(m, p, lo, o, holes) && Threaded(m, heads, p.lists)
    requires c in holes && 1 <= n <= p.tile[c]
    ensures Threaded(m[c := Link(ListHead(heads, n))], heads[n := c], Reserve(p, c, n).lists)
  {
    var m', heads', lists' := m[c := Link(ListHead(heads, n))], heads[n := c], Reserve(p, c, n).lists;
    ReserveLists(p, lo, o, c, n);
    WriteKeepsThreads(m, p, lo, o, holes, heads, c, Link(ListHead(heads, n)));
    forall s
      ensures Chained(m', ListHead(heads', s), Chunks(lists', s), Absent(s))
    {
      assert Chained(m', ListHead(heads, s), Chunks(p.lists, s), Absent(s));
      if s == n {
        ChainPush(m, ListHead(heads, n), Chunks(p.lists, n), Absent(n), c);
      }
    }
  }

  /** What no live object can use becomes a filler. */
  function Filled(m: seq<Word>, c: int, n: int): (m': seq<Word>)
    requires 0 <= c && 1 <= n && c + n <= |m|
    ensures |m'| == |m|
  {
    if n == 1 then m[c := Head(n, false, NIL)] else m[c := Head(n, false, NIL)][c + 1 := Data(n - 2)]
  }

  lemma WasteLaid(m: seq<Word>, p: Plan, lo: int, o: int, holes: set<int>, c: int)
    requires Laid(m, p, lo, o, holes) && c in holes
    ensures Laid(Filled(m, c, p.tile[c]), p, lo, o, holes - {c})
  {
    assert forall a :: a in p.tile ==> a <= c || a >= c + p.tile[c];
  }

  // ----- giving a chunk back -----

  /** The first chunk of list `n` is a hole again. */
  function Reclaim(p: Plan, n: int): (p': Plan)
    requires Chunks(p.lists, n) != []
    ensures p'.live == p.live && p'.len == p.len && p'.tile == p.tile
  {
    p.(lists := p.lists[n := Chunks(p.lists, n)[1..]])
  }

  lemma ReclaimLaid(m: seq<Word>, p: Plan, lo: int, o: int, holes: set<int>, n: int)
    requires Laid(m, p, lo, o, holes) && Chunks(p.lists, n) != []
    ensures var c := Chunks(p.lists, n)[0];
            c in p.tile && p.tile[c] == n && Laid(m, Reclaim(p, n), lo, o, holes + {c})
  {
    var c, p' := Chunks(p.lists, n)[0], Reclaim(p, n);
    ReclaimLists(p, n);
    forall h | h in holes + {c}
      ensures h in p'.tile && h !in p'.live && !IsChunk(p', h)
    {
    }
  }

  lemma ReclaimLists(p: Plan, n: int)
    requires ListsTiled(p) && Chunks(p.lists, n) != []
    ensures var c := Chunks(p.lists, n)[0];
            && c in p.tile && p.tile[c] == n && c !in p.live && ListsTiled(Reclaim(p, n))
            && forall a :: IsChunk(Reclaim(p, n), a) <==> a != c && IsChunk(p, a)
  {
    var list, p' := Chunks(p.lists, n), Reclaim(p, n);
    assert ListTiled(p.tile, p.live, n, list);
    NoDupPop(list);
    assert Chunks(p'.lists, n) == list[1..];
    forall s
      ensures ListTiled(p'.tile, p'.live, s, Chunks(p'.lists, s))
    {
      assert ListTiled(p.tile, p.live, s, Chunks(p.lists, s));
    }
    forall a
      ensures IsChunk(p', a) <==> a != list[0] && IsChunk(p, a)
    {
      if a in p.tile && a == list[0] {
        assert p.tile[a] == n;
      }
    }
  }

  lemma ReclaimThreads(m: seq<Word>, p: Plan, heads: map<int, int>, n: int)
    requires Threaded(m, heads, p.lists) && Chunks(p.lists, n) != []
    ensures var c := Chunks(p.lists, n)[0];
            && ListHead(heads, n) == c && 0 <= c < |m| && m[c].Link?
            && Threaded(m, heads[n := m[c].next], Reclaim(p, n).lists)
  {
    var c := Chunks(p.lists, n)[0];
    assert Chained(m, ListHead(heads, n), Chunks(p.lists, n), Absent(n));
    ChainPop(m, ListHead(heads, n), Chunks(p.lists, n), Absent(n));
    var heads', lists' := heads[n := m[c].next], Reclaim(p, n).lists;
    forall s
      ensures Chained(m, ListHead(heads', s), Chunks(lists', s), Absent(s))
    {
      assert Chained(m, ListHead(heads, s), Chunks(p.lists, s), Absent(s));
    }
  }

  // ----- retracting the boundary -----

  /** A filler at the very end is given up. */
  lemma CutLaid(m: seq<Word>, p: Plan, lo: int, o: int, holes: set<int>, c: int)
    requires Laid(m, p, lo, o, holes)
    requires c in p.tile && c + p.tile[c] == o && c !in p.live && c !in holes && !IsChunk(p, c)
    ensures Laid(m, p.(tile := p.tile - {c}), lo, c, holes)
  {
    hide ListsTiled, IsChunk, IsFiller;
    TilingCut(p.tile, lo, o, c);
    CutLists(p, c);
  }

  lemma CutLists(p: Plan, c: int)
    requires ListsTiled(p) && c in p.tile && !IsChunk(p, c)
    ensures var p' := p.(tile := p.tile - {c});
            ListsTiled(p') && forall a :: IsChunk(p', a) <==> IsChunk(p, a)
  {
    var p' := p.(tile := p.tile - {c});
    forall s
      ensures ListTiled(p'.tile, p'.live, s, Chunks(p'.lists, s)) && c !in Chunks(p.lists, s)
    {
      assert ListTiled(p.tile, p.live, s, Chunks(p.lists, s));
    }
  }

  // ----- the state of the sweep, step by step -----

  /** Everything the sweep keeps true at address `o`. */
  ghost predicate SweptAt(m: seq<Word>, hm: seq<Word>, p: Plan, heads: map<int, int>, lo: int, o: int, holes: set<int>) {
    && Laid(m, p, lo, o, holes)
    && Threaded(m, heads, p.lists)
    && LiveKept(m, hm, p) && Untouched(m, hm, o)
  }

  lemma SweptBounds(m: seq<Word>, hm: seq<Word>, p: Plan, heads: map<int, int>, lo: int, o: int, holes: set<int>, c: int)
    requires SweptAt(m, hm, p, heads, lo, o, holes) && c in p.tile
    ensures 1 <= lo <= c < c + p.tile[c] <= o <= |m| && Tiling(p.tile, lo, o)
    ensures c in holes ==> c !in p.live && !IsChunk(p, c)
    ensures forall h :: h in holes ==> h in p.tile
  {
  }

  lemma SweptWord(m: seq<Word>, hm: seq<Word>, p: Plan, heads: map<int, int>, lo: int, o: int, holes: set<int>, k: int)
    requires SweptAt(m, hm, p, heads, lo, o, holes) && o <= k < |m|
    ensures |m| == |hm| && 0 <= k && m[k] == hm[k]
  {
  }

  lemma SweptNew(m: seq<Word>, hm: seq<Word>, p: Plan, heads: map<int, int>, lo: int, o: int, holes: set<int>)
    requires SweptAt(m, hm, p, heads, lo, o, holes)
    ensures o !in p.tile && lo >= 1
  {
  }

  /** The next object, at `o`, is live. */
  lemma StepLive(m: seq<Word>, hm: seq<Word>, p: Plan, heads: map<int, int>, lo: int, o: int, holes: set<int>, n: int)
    requires SweptAt(m, hm, p, heads, lo, o, holes)
    requires o in p.live && p.len[o] == n >= 1 && o + n <= |m|
    requires forall a :: a in p.live && o < a ==> o + n <= a
    ensures SweptAt(m, hm, p.(tile := p.tile[o := n]), heads, lo, o + n, holes)
  {
    hide Laid, Threaded;
    SweepLive(m, p, lo, o, holes, n);
  }

  /** The next object is dead and begins a hole. */
  lemma StepDead(m: seq<Word>, hm: seq<Word>, p: Plan, heads: map<int, int>, lo: int, o: int, holes: set<int>, n: int)
    requires SweptAt(m, hm, p, heads, lo, o, holes)
    requires o !in p.live && n >= 1 && o + n <= |m|
    requires forall a :: a in p.live && o < a ==> o + n <= a
    ensures SweptAt(m, hm, p.(tile := p.tile[o := n]), heads, lo, o + n, holes + {o})
  {
    hide Laid, Threaded;
    SweepDead(m, p, lo, o, holes, n);
  }

  /** The next object is dead and joins the hole before it. */
  lemma StepHole(m: seq<Word>, hm: seq<Word>, p: Plan, heads: map<int, int>, lo: int, o: int, holes: set<int>, hole: int, n: int)
    requires SweptAt(m, hm, p, heads, lo, o, holes)
    requires o !in p.live && n >= 1 && o + n <= |m|
    requires forall a :: a in p.live && o < a ==> o + n <= a
    requires hole in holes && hole in p.tile && hole + p.tile[hole] == o
    ensures SweptAt(m, hm, p.(tile := p.tile[hole := p.tile[hole] + n]), heads, lo, o + n, holes)
  {
    hide Laid, Threaded;
    SweepHole(m, p, lo, o, holes, hole, n);
  }

  /** A write to the flags word of a hole. */
  lemma StepRecord(m: seq<Word>, hm: seq<Word>, p: Plan, heads: map<int, int>, lo: int, o: int, holes: set<int>, hole: int, w: Word)
    requires SweptAt(m, hm, p, heads, lo, o, holes) && hole in holes && hole in p.tile && 0 <= hole < |m|
    ensures SweptAt(m[hole := w], hm, p, heads, lo, o, holes)
  {
    hide Laid, Threaded, LiveKept, Untouched;
    SweptBounds(m, hm, p, heads, lo, o, holes, hole);
    WriteHole(m, p, lo, o, holes, hole, w);
    WriteKeepsLive(m, hm, p, lo, o, holes, hole, hole, w);
    WriteKeepsThreads(m, p, lo, o, holes, heads, hole, w);
  }

  /** The first `n` words of a hole go to the front of free list `n`. */
  lemma StepReserve(m: seq<Word>, hm: seq<Word>, p: Plan, heads: map<int, int>, lo: int, o: int, holes: set<int>, c: int, n: int)
    requires SweptAt(m, hm, p, heads, lo, o, holes)
    requires c in holes && c in p.tile && 1 <= n <= p.tile[c] && 0 <= c < |m|
    ensures SweptAt(m[c := Link(ListHead(heads, n))], hm, Reserve(p, c, n), heads[n := c], lo, o, ReserveHoles(p, holes, c, n))
  {
    hide Laid, Threaded, Untouched;
    SweptBounds(m, hm, p, heads, lo, o, holes, c);
    ReserveLaid(m, p, lo, o, holes, c, n, Link(ListHead(heads, n)));
    ReserveThreads(m, p, lo, o, holes, heads, c, n);
    WriteKeepsLive(m, hm, p, lo, o, holes, c, c, Link(ListHead(heads, n)));
  }

  /** A hole becomes a filler. */
  lemma StepWaste(m: seq<Word>, hm: seq<Word>, p: Plan, heads: map<int, int>, lo: int, o: int, holes: set<int>, c: int)
    requires SweptAt(m, hm, p, heads, lo, o, holes)
    requires c in holes && c in p.tile && 0 <= c && 1 <= p.tile[c] && c + p.tile[c] <= |m|
    ensures SweptAt(Filled(m, c, p.tile[c]), hm, p, heads, lo, o, holes - {c})
  {
    hide Laid, Threaded, LiveKept, Untouched;
    var n := p.tile[c];
    StepRecord(m, hm, p, heads, lo, o, holes, c, Head(n, false, NIL));
    if n > 1 {
      var m' := m[c := Head(n, false, NIL)];
      InsideNoTile(m', p, lo, o, holes, c, c + 1);
      WriteKeepsLive(m', hm, p, lo, o, holes, c, c + 1, Data(n - 2));
      WriteKeepsThreads(m', p, lo, o, holes, heads, c + 1, Data(n - 2));
    }
    WasteLaid(m, p, lo, o, holes, c);
  }

  lemma InsideNoTile(m: seq<Word>, p: Plan, lo: int, o: int, holes: set<int>, c: int, k: int)
    requires Laid(m, p, lo, o, holes) && c in holes && c < k < c + p.tile[c]
    ensures k !in p.tile && !IsChunk(p, k) && c !in p.live
  {
  }

  /** The first chunk of list `n` is taken off it and is a hole again. */
  lemma StepReclaim(m: seq<Word>, hm: seq<Word>, p: Plan, heads: map<int, int>, lo: int, o: int, holes: set<int>, n: int)
    requires SweptAt(m, hm, p, heads, lo, o, holes) && Chunks(p.lists, n) != []
    ensures var c := Chunks(p.lists, n)[0];
            && ListHead(heads, n) == c && c in p.tile && p.tile[c] == n && c !in p.live
            && 0 <= c < |m| && m[c].Link?
            && SweptAt(m, hm, Reclaim(p, n), heads[n := m[c].next], lo, o, holes + {c})
  {
    ReclaimLists(p, n);
    ReclaimLaid(m, p, lo, o, holes, n);
    ReclaimThreads(m, p, heads, n);
  }

  // ----- the accounts -----

  /** The histogram `counts`, seen as a multiset of sizes of at most `n` words. */
  ghost predicate Tallies(counts: map<int, int>, hist: multiset<int>, n: int) {
    && (forall s :: hist[s] == At(counts, s))
    && (forall s :: s in counts ==> 1 <= s <= n)
  }

  lemma TalliesAt(counts: map<int, int>, hist: multiset<int>, n: int, s: int)
    requires Tallies(counts, hist, n)
    ensures At(counts, s) == hist[s] && (s in hist ==> 1 <= s <= n)
  {
  }

  lemma TalliesAll(counts: map<int, int>, hist: multiset<int>, n: int)
    requires Tallies(counts, hist, n)
    ensures forall s :: At(counts, s) == hist[s]
    ensures forall s :: s in hist ==> At(counts, s) > 0 && s >= 1
  {
  }

  lemma TalliesSizes(counts: map<int, int>, hist: multiset<int>, n: int)
    requires Tallies(counts, hist, n)
    ensures forall s :: s in hist ==> s >= 1
  {
  }

  lemma TalliesTake(counts: map<int, int>, hist: multiset<int>, n: int, s: int)
    requires Tallies(counts, hist, n) && At(counts, s) > 0
    ensures s in hist && |hist - multiset{s}| == |hist| - 1
    ensures Tallies(counts[s := At(counts, s) - 1], hist - multiset{s}, n)
  {
  }

  /** A count that went below zero and back. */
  lemma TalliesBack(counts: map<int, int>, hist: multiset<int>, n: int, s: int)
    requires Tallies(counts, hist, n) && 1 <= s <= n
    ensures var low := counts[s := At(counts, s) - 1];
            Tallies(low[s := At(low, s) + 1], hist, n)
  {
  }

  lemma TalliesGive(counts: map<int, int>, hist: multiset<int>, n: int, s: int)
    requires Tallies(counts, hist, n) && 1 <= s <= n
    ensures |hist + multiset{s}| == |hist| + 1
    ensures Tallies(counts[s := At(counts, s) + 1], hist + multiset{s}, n)
  {
  }

  /** From one state to another, sizes and words moved between the histogram
      and the free lists, and none was lost. */
  ghost predicate Moved(p: Plan, hist: multiset<int>, words: int, p': Plan, hist': multiset<int>, words': int, n: nat) {
    && (forall s {:trigger hist'[s]} :: hist'[s] + |Chunks(p'.lists, s)| == hist[s] + |Chunks(p.lists, s)|)
    && words' + Weight(hist', n) == words + Weight(hist, n)
  }

  lemma MovedNot(p: Plan, hist: multiset<int>, words: int, n: nat)
    ensures Moved(p, hist, words, p, hist, words, n)
  {
  }

  lemma MovedReserve(p: Plan, hist: multiset<int>, words: int, p': Plan, hist': multiset<int>, words': int, n: nat,
                     c: int, s: int)
    requires Moved(p, hist, words, p', hist', words', n)
    requires c in p'.tile && s in hist' && 1 <= s <= n
    ensures Moved(p, hist, words, Reserve(p', c, s), hist' - multiset{s}, words' + s, n)
  {
    WeightRemove(hist', s, n);
  }

  lemma ReservedRest(p: Plan, lo: int, o: int, holes: set<int>, c: int, n: int)
    requires Tiling(p.tile, lo, o) && c in p.tile && 1 <= n <= p.tile[c]
    ensures n < p.tile[c] ==> && c + n in Reserve(p, c, n).tile && c + n !in p.tile
                              && Reserve(p, c, n).tile[c + n] == p.tile[c] - n
    ensures ReserveHoles(p, holes, c, n) == if n < p.tile[c] then holes - {c} + {c + n} else holes - {c}
  {
    if n < p.tile[c] {
      TilingSplit(p.tile, lo, o, c, n);
    }
  }

  /** What fillUp leaves of a hole that ends at `end`. */
  ghost predicate Rest(p: Plan, holes: set<int>, end: int, c: int, size: int) {
    && c + size == end && 0 <= size
    && (size > 0 ==> c in p.tile && p.tile[c] == size && c !in p.live && !IsChunk(p, c) && c !in holes)
  }

  /** Outside the `size` words from `c` nothing changed, and neither did any
      other tile. */
  ghost predicate OnlyInside(m: seq<Word>, p: Plan, m': seq<Word>, p': Plan, c: int, size: int) {
    && |m'| == |m|
    && (forall k :: 0 <= k < |m| && (k < c || c + size <= k) ==> m'[k] == m[k])
    && (forall a :: a in p.tile && a != c ==> a in p'.tile && p'.tile[a] == p.tile[a])
  }

  lemma OnlyInsideNot(m: seq<Word>, p: Plan, c: int, size: int)
    ensures OnlyInside(m, p, m, p, c, size)
  {
  }

  lemma OnlyInsideReserve(m0: seq<Word>, p0: Plan, m: seq<Word>, p: Plan, m': seq<Word>, c0: int, size0: int, c: int, n: int)
    requires OnlyInside(m0, p0, m, p, c0, size0)
    requires |m'| == |m| && forall k :: 0 <= k < |m| && k != c ==> m'[k] == m[k]
    requires c in p.tile && c0 <= c < c0 + size0 && (c == c0 || c !in p0.tile)
    requires 1 <= n <= p.tile[c] && (n < p.tile[c] ==> c + n !in p.tile)
    ensures OnlyInside(m0, p0, m', Reserve(p, c, n), c0, size0)
  {
  }

  lemma OnlyInsideWrite(m0: seq<Word>, p0: Plan, m: seq<Word>, p: Plan, m': seq<Word>, c0: int, size0: int)
    requires OnlyInside(m0, p0, m, p, c0, size0)
    requires |m'| == |m| && forall k :: 0 <= k < |m| && (k < c0 || c0 + size0 <= k) ==> m'[k] == m[k]
    ensures OnlyInside(m0, p0, m', p, c0, size0)
  {
  }

  /** The histogram and the free lists together hold, for every size, one place
      for each live object that the sweep has not reached. */
  ghost predicate Owed(p: Plan, hist: multiset<int>, freeWords: int, o: int, hi: int, n: nat) {
    && (forall s :: hist[s] + |Chunks(p.lists, s)| == LiveCount(p.live, p.len, o, hi, s))
    && freeWords + Weight(hist, n) == LiveWords(p.live, p.len, o, hi)
  }

  lemma OwedMoved(p: Plan, hist: multiset<int>, words: int, p': Plan, hist': multiset<int>, words': int,
                  o: int, hi: int, n: nat)
    requires Owed(p, hist, words, o, hi, n) && Moved(p, hist, words, p', hist', words', n)
    requires p'.live == p.live && p'.len == p.len
    ensures Owed(p', hist', words', o, hi, n)
  {
    forall s
      ensures hist'[s] + |Chunks(p'.lists, s)| == LiveCount(p'.live, p'.len, o, hi, s)
    {
      assert hist[s] + |Chunks(p.lists, s)| == LiveCount(p.live, p.len, o, hi, s);
    }
  }

  /** Without free lists, a live object's size is in the histogram. */
  lemma OwedHas(p: Plan, hist: multiset<int>, words: int, o: int, hi: int, n: nat)
    requires Owed(p, hist, words, o, hi, n)
    requires o in p.len && o < hi && p.len[o] >= 1 && o in p.live && p.lists == map[]
    ensures p.len[o] in hist
  {
    assert hist[p.len[o]] + |Chunks(p.lists, p.len[o])| == LiveCount(p.live, p.len, o, hi, p.len[o]);
  }

  lemma WordsAt(p: Plan, o: int, hi: int)
    requires o in p.len && o < hi && p.len[o] >= 1
    ensures LiveWords(p.live, p.len, o, hi)
         == (if o in p.live then p.len[o] else 0) + LiveWords(p.live, p.len, o + p.len[o], hi)
  {
  }

  /** The sweep passes a dead object. */
  lemma OwedDead(p: Plan, hist: multiset<int>, words: int, o: int, hi: int, n: nat, p': Plan)
    requires Owed(p, hist, words, o, hi, n) && p'.live == p.live && p'.len == p.len && p'.lists == p.lists
    requires o in p.len && o < hi && p.len[o] >= 1 && o !in p.live
    ensures Owed(p', hist, words, o + p.len[o], hi, n)
  {
  }

  /** The sweep passes a live object, which stays where it is: one place of its
      size is no longer owed, from the histogram if it has one. */
  lemma OwedLive(p: Plan, hist: multiset<int>, words: int, o: int, hi: int, n: nat, p': Plan)
    requires Owed(p, hist, words, o, hi, n) && p'.live == p.live && p'.len == p.len && p'.lists == p.lists
    requires o in p.len && o < hi && 1 <= p.len[o] <= n && o in p.live
    requires hist[p.len[o]] > 0
    ensures Owed(p', hist - multiset{p.len[o]}, words, o + p.len[o], hi, n)
  {
    WeightRemove(hist, p.len[o], n);
  }

  /** If not, there is a chunk of its size, and that is given back. */
  lemma OwedReclaim(p: Plan, hist: multiset<int>, words: int, o: int, hi: int, n: nat, p': Plan)
    requires Owed(p, hist, words, o, hi, n)
    requires o in p.len && o < hi && 1 <= p.len[o] <= n && o in p.live && hist[p.len[o]] == 0
    ensures Chunks(p.lists, p.len[o]) != []
    ensures p'.live == p.live && p'.len == p.len && p'.lists == Reclaim(p, p.len[o]).lists
            ==> Owed(p', hist, words - p.len[o], o + p.len[o], hi, n)
  {
    assert hist[p.len[o]] + |Chunks(p.lists, p.len[o])| == LiveCount(p.live, p.len, o, hi, p.len[o]);
  }

  /** Every size that is still owed was known to the histogram when it was
      compacted. */
  ghost predicate Known(home: map<int, nat>, p: Plan, o: int, hi: int) {
    forall s :: LiveCount(p.live, p.len, o, hi, s) > 0 ==> s in home
  }

  /** The compaction keeps every size that is owed. */
  lemma KnownStart(home: map<int, nat>, counts: map<int, int>, p: Plan, hist: multiset<int>, words: int, o: int, hi: int, n: nat)
    requires Tallies(counts, hist, n) && Owed(p, hist, words, o, hi, n) && p.lists == map[]
    requires forall k :: k in home <==> At(counts, k) > 0
    ensures Known(home, p, o, hi)
  {
    forall s | LiveCount(p.live, p.len, o, hi, s) > 0
      ensures s in home
    {
      assert hist[s] + |Chunks(p.lists, s)| == LiveCount(p.live, p.len, o, hi, s);
    }
  }

  lemma TalliesKeys(counts: map<int, int>, hist: multiset<int>, n: int)
    requires Tallies(counts, hist, n)
    ensures forall k :: k in counts ==> 1 <= k <= n && counts[k] >= 0
  {
    assert forall k :: k in counts ==> counts[k] == At(counts, k) == hist[k];
  }

  lemma KnownSame(home: map<int, nat>, p: Plan, p': Plan, o: int, hi: int)
    requires Known(home, p, o, hi) && p'.live == p.live && p'.len == p.len
    ensures Known(home, p', o, hi)
  {
    forall s | LiveCount(p'.live, p'.len, o, hi, s) > 0
      ensures s in home
    {
      assert LiveCount(p.live, p.len, o, hi, s) > 0;
    }
  }

  lemma KnownNext(home: map<int, nat>, p: Plan, o: int, hi: int)
    requires Known(home, p, o, hi) && o in p.len && o < hi && p.len[o] >= 1
    ensures Known(home, p, o + p.len[o], hi)
    ensures o in p.live ==> p.len[o] in home
  {
    assert LiveCount(p.live, p.len, o, hi, p.len[o])
        == (if o in p.live then 1 else 0) + LiveCount(p.live, p.len, o + p.len[o], hi, p.len[o]);
    forall s | LiveCount(p.live, p.len, o + p.len[o], hi, s) > 0
      ensures s in home
    {
      assert LiveCount(p.live, p.len, o, hi, s) > 0;
    }
  }

  /** Total size of the tiles at the addresses of a list. */
  ghost function TileWords(tile: map<int, int>, list: seq<int>): int
  {
    if list == [] then 0
    else (if list[0] in tile then tile[list[0]] else 0) + TileWords(tile, list[1..])
  }

  lemma {:induction false} TileWordsSame(tile: map<int, int>, tile': map<int, int>, list: seq<int>)
    requires forall a :: a in list ==> a in tile && a in tile' && tile[a] == tile'[a]
    ensures TileWords(tile, list) == TileWords(tile', list)
  {
    if list != [] {
      var a, rest := list[0], list[1..];
      assert a in list && a in tile && a in tile' && tile[a] == tile'[a];
      assert forall b :: b in rest ==> b in list;
      TileWordsSame(tile, tile', rest);
    }
  }

  /** The objects of the old generation as the marking left them. */
  ghost predicate MarkedHeap(hm: seq<Word>, live: set<int>, len: map<int, int>, lo: int, hi: int) {
    && 1 <= lo && Parsed(hm, len, lo, hi)
    && (forall a :: a in live ==> a in len)
    && (forall a :: a in len ==> (hm[a].mark <==> a in live))
  }

  lemma MarkedNext(hm: seq<Word>, live: set<int>, len: map<int, int>, lo: int, hi: int, o: int)
    requires MarkedHeap(hm, live, len, lo, hi) && o in len
    ensures 1 <= lo <= o < o + len[o] <= hi <= |hm| && len[o] >= 1
    ensures o + len[o] == hi || o + len[o] in len
    ensures forall a :: a in live && o < a ==> o + len[o] <= a
    ensures hm[o].Head? && hm[o].size == len[o] && (hm[o].mark <==> o in live)
  {
    assert Followed(len, o, hi);
  }

  // ----- the list of holes of the first sweep -----

  ghost function HoleSet(list: seq<int>, open: int): set<int> {
    (set h | h in list) + (if open != 0 then {open} else {})
  }

  /** The holes found so far, threaded through memory and ended by 0, and the
      table of their sizes; `open` is the hole being found, 0 if none. */
  ghost predicate HoleList(m: seq<Word>, p: Plan, sizes: map<int, int>, head: int, list: seq<int>, open: int) {
    && Chained(m, head, list, 0) && NoDup(list) && open !in list
    && (forall h :: h in list ==> h >= 1 && h in p.tile && h in sizes && sizes[h] == p.tile[h])
  }

  lemma HoleListStart(m: seq<Word>, p: Plan)
    ensures HoleList(m, p, map[], 0, [], 0) && HoleSet([], 0) == {}
  {
  }

  /** The open hole joins the list. */
  lemma HoleListPush(m: seq<Word>, p: Plan, sizes: map<int, int>, head: int, list: seq<int>, open: int)
    requires HoleList(m, p, sizes, head, list, open)
    requires 1 <= open < |m| && open in p.tile
    ensures HoleList(m[open := Link(head)], p, sizes[open := p.tile[open]], open, [open] + list, 0)
    ensures HoleSet([open] + list, 0) == HoleSet(list, open)
    ensures TileWords(p.tile, [open] + list) == p.tile[open] + TileWords(p.tile, list)
  {
    ChainPush(m, head, list, 0, open);
    NoDupPush(list, open);
    assert ([open] + list)[1..] == list;
  }

  /** Tiles are added or the open hole grows: the listed holes stay. */
  lemma HoleListTile(m: seq<Word>, p: Plan, p': Plan, sizes: map<int, int>, head: int, list: seq<int>, open: int, open': int)
    requires HoleList(m, p, sizes, head, list, open)
    requires forall h :: h in p.tile && h != open' ==> h in p'.tile && p'.tile[h] == p.tile[h]
    requires open' == open || open' !in p.tile
    ensures HoleList(m, p', sizes, head, list, open')
    ensures TileWords(p'.tile, list) == TileWords(p.tile, list)
  {
    TileWordsSame(p.tile, p'.tile, list);
  }

  /** The open hole is not on the list, and a write to it does not matter. */
  lemma HoleListWrite(m: seq<Word>, p: Plan, sizes: map<int, int>, head: int, list: seq<int>, open: int, w: Word)
    requires HoleList(m, p, sizes, head, list, open) && 0 <= open < |m|
    ensures open !in list && HoleList(m[open := w], p, sizes, head, list, open)
  {
    forall h | h in list
      ensures 0 <= h < |m| && h != open
    {
      var i :| 0 <= i < |list| && list[i] == h;
      assert m[list[i]] == Link(After(list, i, 0));
    }
    ChainFrame(m, m[open := w], head, list, 0);
  }

  /** A hole that is not on the list is filled. */
  lemma HoleListInside(m: seq<Word>, p: Plan, m': seq<Word>, p': Plan, sizes: map<int, int>, head: int, list: seq<int>,
                       hole: int, lo: int, o: int)
    requires HoleList(m, p, sizes, head, list, hole) && hole in p.tile && Tiling(p.tile, lo, o)
    requires OnlyInside(m, p, m', p', hole, p.tile[hole]) && lo >= 1
    ensures HoleList(m', p', sizes, head, list, 0)
    ensures TileWords(p'.tile, list) == TileWords(p.tile, list)
  {
    forall h | h in list
      ensures h in p'.tile && p'.tile[h] == p.tile[h] && 0 <= h < |m| && m'[h] == m[h]
    {
      var i :| 0 <= i < |list| && list[i] == h;
      assert m[list[i]] == Link(After(list, i, 0));
    }
    ChainFrame(m, m', head, list, 0);
    TileWordsSame(p.tile, p'.tile, list);
  }

  /** The list of holes is not empty exactly when its head is not 0. */
  lemma HoleListHead(m: seq<Word>, p: Plan, sizes: map<int, int>, head: int, list: seq<int>)
    requires HoleList(m, p, sizes, head, list, 0)
    ensures head == 0 <==> list == []
    ensures head != 0 ==> && head == list[0] && head in p.tile && head in sizes && sizes[head] == p.tile[head]
                          && head in HoleSet(list, 0) && 0 <= head < |m| && m[head].Link?
  {
    if list != [] {
      assert list[0] in list;
      assert m[list[0]] == Link(After(list, 0, 0));
    }
  }

  /** The first hole is taken off the list and filled; the others stay. */
  lemma HoleListPop(m: seq<Word>, p: Plan, m': seq<Word>, p': Plan, sizes: map<int, int>, head: int, list: seq<int>,
                    lo: int, o: int)
    requires HoleList(m, p, sizes, head, list, 0) && list != [] && Tiling(p.tile, lo, o)
    requires OnlyInside(m, p, m', p', head, p.tile[head])
    ensures 0 <= head < |m| && m[head].Link? && HoleList(m', p', sizes, m[head].next, list[1..], 0)
    ensures HoleSet(list, 0) - {head} == HoleSet(list[1..], 0)
    ensures TileWords(p.tile, list) == p.tile[head] + TileWords(p'.tile, list[1..])
  {
    ChainPop(m, head, list, 0);
    NoDupPop(list);
    var rest := list[1..];
    forall h | h in rest
      ensures h in p'.tile && p'.tile[h] == p.tile[h] && 0 <= h < |m| && m'[h] == m[h]
    {
      assert h in list && h != head;
      var i :| 0 <= i < |rest| && rest[i] == h;
      assert rest[i] == list[i + 1];
    }
    ChainFrame(m, m', m[head].next, rest, 0);
    TileWordsSame(p.tile, p'.tile, rest);
  }

  // ----- the plan is complete -----

  /** The sweep ended at `end` with the boundary at `b`; between them there is at
      most a filler. */
  ghost predicate Complete(m: seq<Word>, hm: seq<Word>, p: Plan, heads: map<int, int>, lo: int, b: int, end: int, hi: int) {
    && Laid(m, p, lo, b, {}) && Threaded(m, heads, p.lists)
    && LiveKept(m, hm, p) && Untouched(m, hm, end)
    && b <= end && (b < end ==> IsFiller(m, b, end - b))
    && (forall a :: a in p.live ==> a < b || a >= end)
    && (forall s {:trigger Chunks(p.lists, s)} :: |Chunks(p.lists, s)| == LiveCount(p.live, p.len, end, hi, s))
  }

  /** All live objects have been provided for: every list has just as many
      chunks as there are live objects of its size still to come. */
  lemma CompleteAt(m: seq<Word>, hm: seq<Word>, p: Plan, heads: map<int, int>, lo: int, o: int, hi: int,
                   hist: multiset<int>, words: int, n: nat)
    requires SweptAt(m, hm, p, heads, lo, o, {}) && Owed(p, hist, words, o, hi, n) && |hist| == 0
    ensures Complete(m, hm, p, heads, lo, o, o, hi)
    ensures words == LiveWords(p.live, p.len, o, hi)
  {
    assert hist == multiset{};
    WeightEmpty(n);
    forall s
      ensures |Chunks(p.lists, s)| == LiveCount(p.live, p.len, o, hi, s)
    {
      assert hist[s] + |Chunks(p.lists, s)| == LiveCount(p.live, p.len, o, hi, s);
    }
  }

  /** The last hole's remainder, just before live object `o`, is given up. */
  lemma CompleteCut(m: seq<Word>, hm: seq<Word>, p: Plan, heads: map<int, int>, lo: int, o: int, hi: int, c: int, size: int)
    requires Complete(m, hm, p, heads, lo, o, o, hi)
    requires Rest(p, {}, o, c, size) && size > 0
    ensures Complete(m, hm, p.(tile := p.tile - {c}), heads, lo, c, o, hi)
  {
    CutLaid(m, p, lo, o, {}, c);
    forall a | a in p.live
      ensures a < c || a >= o
    {
      if a < o {
        assert a in p.tile && a != c;
      }
    }
  }

  /** With nothing left to sweep nothing is owed. */
  lemma OwedNone(p: Plan, hist: multiset<int>, words: int, hi: int, n: nat)
    requires Owed(p, hist, words, hi, hi, n)
    ensures |hist| == 0
  {
    forall s
      ensures s !in hist
    {
      assert hist[s] + |Chunks(p.lists, s)| == LiveCount(p.live, p.len, hi, hi, s);
    }
    assert hist == multiset{};
  }

  lemma RestBounds(p: Plan, holes: set<int>, end: int, c: int, size: int)
    requires Rest(p, holes, end, c, size)
    ensures c + size == end && size >= 0
  {
  }

  /** The marked objects fit into the space they come from. */
  lemma LiveFits(hm: seq<Word>, live: set<int>, len: map<int, int>, lo: int, hi: int)
    requires MarkedHeap(hm, live, len, lo, hi)
    ensures LiveWords(live, len, lo, hi) <= hi - lo
  {
    LiveFitsFrom(live, len, lo, hi, lo);
  }

  lemma {:induction false} LiveFitsFrom(live: set<int>, len: map<int, int>, lo: int, hi: int, a: int)
    requires Tiling(len, lo, hi) && (a == hi || a in len)
    ensures LiveWords(live, len, a, hi) <= hi - a
    decreases hi - a
  {
    if a < hi {
      assert Followed(len, a, hi);
      LiveFitsFrom(live, len, lo, hi, a + len[a]);
    }
  }

}
