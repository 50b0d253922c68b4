/** Moving the live objects beyond the boundary into their chunks
    (moveThemPuppies, checkAndFindNew_old and move_fields in vm/gc.c). */
module CompactionMove {
  import opened Heap
  import opened SizeTable
  import opened CompactionPlan
  import ObjectTable

  /** The object at `t` in `m` is the one at `a` in `hm`, unmarked and with its
      references renamed; `i` words of it have been copied so far. */
  ghost predicate CopiedUpTo(m: seq<Word>, hm: seq<Word>, to: map<int, int>, a: int, t: int, n: int, i: int) {
    && 0 <= a && a + n <= |hm| && 0 <= t && t + n <= |m| && 1 <= i <= n
    && forall k :: t < k < t + i ==> m[k] == MapWord(to, hm[k - t + a])
  }

  ghost predicate Copied(m: seq<Word>, hm: seq<Word>, to: map<int, int>, a: int, t: int, n: int) {
    && CopiedUpTo(m, hm, to, a, t, n, n)
    && hm[a].Head? && m[t] == Head(n, false, Renamed(to, hm[a].ct))
  }

  /** The reference `r` keeps its renaming from now on. */
  ghost predicate Settled(p: Plan, to: map<int, int>, end: int, r: int) {
    r in p.live && r >= end ==> r in to
  }

  ghost predicate AllSettled(hm: seq<Word>, p: Plan, to: map<int, int>, end: int, a: int, i: int) {
    forall k :: a <= k < a + i && 0 <= k < |hm| ==> Settled(p, to, end, RefOf(hm[k]))
  }

  /** Every object given a new place has a tile of its size, that is neither
      live space nor on a free list, and no other object has it. */
  ghost predicate Targets(p: Plan, to: map<int, int>, end: int) {
    && (forall a :: a in to ==> && a in p.live && a >= end && a in p.len
                                && to[a] in p.tile && p.tile[to[a]] == p.len[a]
                                && to[a] !in p.live && !IsChunk(p, to[a]))
    && (forall a, b :: a in to && b in to && a != b ==> to[a] != to[b])
  }

  /** Forwarded objects: the old flags word points to the new place, which holds
      the flags until the fields are moved (`done`) or being moved (`cur`). */
  ghost predicate Forwarded(m: seq<Word>, hm: seq<Word>, to: map<int, int>, done: set<int>, cur: int) {
    && |m| == |hm|
    && (forall a :: a in to ==> 0 <= a < |m| && 0 <= to[a] < |m| && m[a] == Forward(to[a]))
    && (forall a :: a in to && a !in done && a != cur ==> m[to[a]] == hm[a])
  }

  /** From `end` on only flags words of forwarded objects differ. */
  ghost predicate Above(m: seq<Word>, hm: seq<Word>, to: map<int, int>, end: int) {
    |m| == |hm| && forall k :: 0 <= k < |m| && end <= k && k !in to ==> m[k] == hm[k]
  }

  /** Live objects below the boundary are as they were. */
  ghost predicate Below(m: seq<Word>, hm: seq<Word>, p: Plan, b: int) {
    && |m| == |hm|
    && (forall a :: a in p.live && a < b ==> a in p.tile && a in p.len && p.tile[a] == p.len[a])
    && (forall a, k :: a in p.live && a < b && a in p.len && a <= k < a + p.len[a] && 0 <= k < |m| ==> m[k] == hm[k])
  }

  ghost predicate IsTarget(to: map<int, int>, c: int) {
    exists a :: a in to && to[a] == c
  }

  ghost predicate Fillers(m: seq<Word>, p: Plan, to: map<int, int>) {
    forall a :: a in p.tile && a !in p.live && !IsTarget(to, a) && !IsChunk(p, a) ==> IsFiller(m, a, p.tile[a])
  }

  ghost predicate AllCopied(m: seq<Word>, hm: seq<Word>, p: Plan, to: map<int, int>, done: set<int>, end: int) {
    forall a :: a in done ==> && a in to && a in p.len && Copied(m, hm, to, a, to[a], p.len[a])
                              && AllSettled(hm, p, to, end, a, p.len[a])
  }

  /** The chunks left are just enough for the objects that have no place yet. */
  ghost predicate Balance(p: Plan, to: map<int, int>, end: int, hi: int) {
    forall s {:trigger Chunks(p.lists, s)} ::
      |Chunks(p.lists, s)| == LiveCount(p.live - to.Keys, p.len, end, hi, s)
  }

  /** Everything the move keeps true. */
  ghost predicate Moving(m: seq<Word>, hm: seq<Word>, p: Plan, heads: map<int, int>, to: map<int, int>,
                         done: set<int>, cur: int, lo: int, b: int, end: int, hi: int)
  {
    && 1 <= lo <= b <= end <= hi <= |m| && Tiling(p.tile, lo, b) && ListsTiled(p)
    && Threaded(m, heads, p.lists)
    && Targets(p, to, end) && Forwarded(m, hm, to, done, cur)
    && Above(m, hm, to, end) && Below(m, hm, p, b) && Fillers(m, p, to)
    && AllCopied(m, hm, p, to, done, end) && Balance(p, to, end, hi)
    && cur !in done && (b < end ==> IsFiller(m, b, end - b))
  }

  // ----- giving an object a place -----

  /** An object beyond the boundary that has no place finds a chunk of its size. */
  lemma PlaceExists(hm: seq<Word>, p: Plan, to: map<int, int>, lo: int, end: int, hi: int, r: int)
    requires MarkedHeap(hm, p.live, p.len, lo, hi) && Balance(p, to, end, hi)
    requires end in p.len && r in p.live && r >= end && r !in to
    ensures Chunks(p.lists, p.len[r]) != []
  {
    LiveHas(p.live - to.Keys, p.len, lo, hi, end, r);
    assert |Chunks(p.lists, p.len[r])| == LiveCount(p.live - to.Keys, p.len, end, hi, p.len[r]);
  }

  lemma PlaceBalance(hm: seq<Word>, p: Plan, to: map<int, int>, lo: int, end: int, hi: int, r: int, c: int)
    requires MarkedHeap(hm, p.live, p.len, lo, hi) && Balance(p, to, end, hi)
    requires end in p.len && r in p.live && r >= end && r !in to && Chunks(p.lists, p.len[r]) != []
    ensures Balance(Reclaim(p, p.len[r]), to[r := c], end, hi)
  {
    var q := Reclaim(p, p.len[r]);
    var rest := q.live - to[r := c].Keys;
    assert p.live - to.Keys == rest + {r};
    forall s
      ensures |Chunks(q.lists, s)| == LiveCount(rest, q.len, end, hi, s)
    {
      LiveAdd(rest, p.len, lo, hi, end, r, s);
      assert |Chunks(p.lists, s)| == LiveCount(p.live - to.Keys, p.len, end, hi, s);
    }
  }

  lemma PlaceTargets(p: Plan, to: map<int, int>, end: int, r: int)
    requires Targets(p, to, end) && ListsTiled(p)
    requires r in p.live && r in p.len && r >= end && r !in to && Chunks(p.lists, p.len[r]) != []
    ensures Targets(Reclaim(p, p.len[r]), to[r := Chunks(p.lists, p.len[r])[0]], end)
  {
    var c := Chunks(p.lists, p.len[r])[0];
    assert ListTiled(p.tile, p.live, p.len[r], Chunks(p.lists, p.len[r]));
    ReclaimLists(p, p.len[r]);
    assert IsChunk(p, c);
  }

  /** The memory after object `r` has been forwarded to chunk `c`. */
  function Forwarding(m: seq<Word>, r: int, c: int): (m': seq<Word>)
    requires 0 <= r < |m| && 0 <= c < |m|
    ensures |m'| == |m|
  {
    m[c := m[r]][r := Forward(c)]
  }

  lemma PlaceMemory(m: seq<Word>, hm: seq<Word>, p: Plan, to: map<int, int>, done: set<int>, cur: int,
                    lo: int, b: int, end: int, r: int, c: int)
    requires 1 <= lo && b <= end <= |m| && Tiling(p.tile, lo, b) && Targets(p, to, end) && Forwarded(m, hm, to, done, cur)
    requires Above(m, hm, to, end) && Below(m, hm, p, b)
    requires end <= r < |m| && r !in to && r !in done && r != cur
    requires c in p.tile && c !in p.live && !IsTarget(to, c)
    ensures 0 <= c < b
    ensures var m' := Forwarding(m, r, c);
            Forwarded(m', hm, to[r := c], done, cur) && Above(m', hm, to[r := c], end) && Below(m', hm, p, b)
  {
    PlaceForwarded(m, hm, p, to, done, cur, lo, b, end, r, c);
    PlaceAround(m, hm, p, to, lo, b, end, r, c);
  }

  lemma PlaceForwarded(m: seq<Word>, hm: seq<Word>, p: Plan, to: map<int, int>, done: set<int>, cur: int,
                       lo: int, b: int, end: int, r: int, c: int)
    requires 1 <= lo && b <= end <= |m| && Tiling(p.tile, lo, b) && Targets(p, to, end) && Forwarded(m, hm, to, done, cur)
    requires end <= r < |m| && r !in to && r !in done && r != cur && m[r] == hm[r]
    requires c in p.tile && !IsTarget(to, c)
    ensures 0 <= c < b && Forwarded(Forwarding(m, r, c), hm, to[r := c], done, cur)
  {
    var m', to' := Forwarding(m, r, c), to[r := c];
    forall a | a in to'
      ensures 0 <= a < |m'| && 0 <= to'[a] < |m'| && m'[a] == Forward(to'[a])
      ensures a !in done && a != cur ==> m'[to'[a]] == hm[a]
    {
      if a != r {
        assert to[a] in p.tile && IsTarget(to, to[a]);
      }
    }
  }

  lemma PlaceAround(m: seq<Word>, hm: seq<Word>, p: Plan, to: map<int, int>,
                    lo: int, b: int, end: int, r: int, c: int)
    requires 1 <= lo && b <= end <= |m| && Tiling(p.tile, lo, b)
    requires Above(m, hm, to, end) && Below(m, hm, p, b)
    requires end <= r < |m| && c in p.tile && c !in p.live
    ensures 0 <= c && Above(Forwarding(m, r, c), hm, to[r := c], end) && Below(Forwarding(m, r, c), hm, p, b)
  {
  }

  lemma PlaceThreads(m: seq<Word>, p: Plan, heads: map<int, int>, lo: int, b: int, end: int, r: int, s: int)
    requires b <= end && Tiling(p.tile, lo, b) && lo >= 1 && ListsTiled(p) && Threaded(m, heads, p.lists)
    requires end <= r < |m| && Chunks(p.lists, s) != []
    ensures var c := Chunks(p.lists, s)[0];
            && ListHead(heads, s) == c && 0 <= c < |m| && m[c].Link?
            && Threaded(Forwarding(m, r, c), heads[s := m[c].next], Reclaim(p, s).lists)
  {
    var c := Chunks(p.lists, s)[0];
    ReclaimThreads(m, p, heads, s);
    ReclaimLists(p, s);
    var q, heads', m' := Reclaim(p, s), heads[s := m[c].next], Forwarding(m, r, c);
    forall t
      ensures Chained(m', ListHead(heads', t), Chunks(q.lists, t), Absent(t))
    {
      var list := Chunks(q.lists, t);
      assert ListTiled(q.tile, q.live, t, list);
      assert Chained(m, ListHead(heads', t), list, Absent(t));
      forall d | d in list
        ensures 0 <= d < |m| && m'[d] == m[d]
      {
        assert IsChunk(q, d);
      }
      ChainFrame(m, m', ListHead(heads', t), list, Absent(t));
    }
  }

  lemma PlaceFillers(m: seq<Word>, p: Plan, to: map<int, int>, lo: int, b: int, end: int, r: int, s: int)
    requires b <= end && Tiling(p.tile, lo, b) && lo >= 1 && ListsTiled(p) && Fillers(m, p, to)
    requires end <= r < |m| && r !in to && Chunks(p.lists, s) != [] && 0 <= Chunks(p.lists, s)[0] < |m|
    ensures var c := Chunks(p.lists, s)[0];
            Fillers(Forwarding(m, r, c), Reclaim(p, s), to[r := c])
  {
    var c := Chunks(p.lists, s)[0];
    ReclaimLists(p, s);
    var q, to', m' := Reclaim(p, s), to[r := c], Forwarding(m, r, c);
    assert to'[r] == c && IsTarget(to', c);
    forall v | IsTarget(to, v)
      ensures IsTarget(to', v)
    {
      var a :| a in to && to[a] == v;
      assert to'[a] == v;
    }
    forall a | a in q.tile && a !in q.live && !IsTarget(to', a) && !IsChunk(q, a)
      ensures IsFiller(m', a, q.tile[a])
    {
      assert a != c && !IsChunk(p, a);
    }
  }

  /** Giving another object a place disturbs nothing copied so far. */
  lemma PlaceCopied(m: seq<Word>, hm: seq<Word>, p: Plan, to: map<int, int>, end: int,
                    r: int, c: int, a: int, n: int, i: int)
    requires 0 <= r < |m| && 0 <= c < |m| && r in p.live && r >= end && r !in to
    requires a in to && 1 <= i <= n && (c < to[a] || to[a] + n <= c) && to[a] + n <= r
    requires CopiedUpTo(m, hm, to, a, to[a], n, i) && AllSettled(hm, p, to, end, a, i)
    ensures CopiedUpTo(Forwarding(m, r, c), hm, to[r := c], a, to[a], n, i)
    ensures AllSettled(hm, p, to[r := c], end, a, i)
    ensures Forwarding(m, r, c)[to[a]] == m[to[a]]
  {
    var t := to[a];
    PlaceSettled(hm, p, to, end, r, c, a, i);
    var m', to' := Forwarding(m, r, c), to[r := c];
    forall k | t < k < t + i
      ensures m'[k] == MapWord(to', hm[k - t + a])
    {
      var w := hm[k - t + a];
      assert m[k] == MapWord(to, w);
      assert RefOf(w) != r;
    }
  }

  /** A forwarding writes neither into the tile at `t` nor at its start. */
  lemma PlaceApart(p: Plan, lo: int, b: int, end: int, t: int, n: int, r: int, c: int)
    requires 1 <= lo && b <= end <= r && Tiling(p.tile, lo, b)
    requires t in p.tile && p.tile[t] == n && c in p.tile && c != t
    ensures 0 <= c && (c < t || t + n <= c) && t + n <= r
  {
  }

  lemma PlaceSettled(hm: seq<Word>, p: Plan, to: map<int, int>, end: int, r: int, c: int, a: int, i: int)
    requires AllSettled(hm, p, to, end, a, i) && r in p.live && r >= end && r !in to
    ensures AllSettled(hm, p, to[r := c], end, a, i)
    ensures forall k :: a <= k < a + i && 0 <= k < |hm| ==> RefOf(hm[k]) != r
  {
    forall k | a <= k < a + i && 0 <= k < |hm|
      ensures Settled(p, to[r := c], end, RefOf(hm[k])) && RefOf(hm[k]) != r
    {
      assert Settled(p, to, end, RefOf(hm[k]));
    }
  }

  /** A live object beyond the boundary that has no place yet finds a chunk. */
  lemma PlaceFound(m: seq<Word>, hm: seq<Word>, p: Plan, heads: map<int, int>, to: map<int, int>,
                    done: set<int>, cur: int, lo: int, b: int, end: int, hi: int, r: int)
    requires Moving(m, hm, p, heads, to, done, cur, lo, b, end, hi) && MarkedHeap(hm, p.live, p.len, lo, hi)
    requires end in p.len && r in p.live && r >= end && r !in to && r != cur
    ensures r in p.len && end <= r < |m| && m[r] == hm[r] && r !in done
    ensures var s := p.len[r];
            && Chunks(p.lists, s) != []
            && var c := Chunks(p.lists, s)[0];
            && ListHead(heads, s) == c && 0 <= c < b && c < |m| && m[c].Link?
            && c in p.tile && p.tile[c] == s && c !in p.live && !IsTarget(to, c)
  {
    hide Forwarded, Below, Fillers, IsChunk;
    var s := p.len[r];
    MarkedNext(hm, p.live, p.len, lo, hi, r);
    PlaceExists(hm, p, to, lo, end, hi, r);
    FirstChunk(p, to, end, s);
    AboveAt(m, hm, to, end, r);
    ReclaimThreads(m, p, heads, s);
    assert r !in done;
  }

  // ----- the object table -----

  /** The object table as it was, every identifier naming its object where it is now. */
  function NamedNow(named: map<int, int>, to: map<int, int>): map<int, int> {
    map a | a in named :: Renamed(to, named[a])
  }

  /** A table that names no dead object, and no object twice. */
  ghost predicate NamesLive(named: map<int, int>, live: set<int>, lo: int, limit: int) {
    && (forall a :: a in named && lo <= named[a] < limit ==> named[a] in live)
    && (forall a, b :: a in named && b in named && a != b ==> named[a] != named[b])
  }

  ghost predicate NamesMoved(names: map<int, int>, named: map<int, int>, to: map<int, int>, live: set<int>, lo: int, limit: int) {
    names == NamedNow(named, to) && NamesLive(named, live, lo, limit)
  }

  /** No identifier names the chunk an object is given, so that the object table
      can be updated; then the object's identifier names it there. */
  lemma NamesPlaced(m: seq<Word>, hm: seq<Word>, p: Plan, heads: map<int, int>, to: map<int, int>,
                    done: set<int>, cur: int, lo: int, b: int, end: int, hi: int, limit: int, r: int,
                    names: map<int, int>, named: map<int, int>)
    requires Moving(m, hm, p, heads, to, done, cur, lo, b, end, hi) && MarkedHeap(hm, p.live, p.len, lo, hi) && hi <= limit
    requires end in p.len && r in p.live && r >= end && r !in to && r != cur
    requires NamesMoved(names, named, to, p.live, lo, limit)
    ensures r in p.len && Chunks(p.lists, p.len[r]) != []
    ensures var c := Chunks(p.lists, p.len[r])[0];
            && ObjectTable.CanReaddress(names, r, c)
            && (forall a, b :: a in names && b in names && a != b ==> names[a] != names[b])
            && NamesMoved(ObjectTable.Readdressed(names, r, c), named, to[r := c], p.live, lo, limit)
  {
    PlaceFound(m, hm, p, heads, to, done, cur, lo, b, end, hi, r);
    var c := Chunks(p.lists, p.len[r])[0];
    NewPlacesWhere(m, hm, p, heads, to, done, cur, lo, b, end, hi);
    assert lo <= c < b;
    hide Moving, MarkedHeap;
    NamesUpdated(p.live, to, lo, b, end, limit, r, c, names, named);
  }

  /** New places are below the boundary, different, and no live objects. */
  lemma NewPlacesWhere(m: seq<Word>, hm: seq<Word>, p: Plan, heads: map<int, int>, to: map<int, int>,
                       done: set<int>, cur: int, lo: int, b: int, end: int, hi: int)
    requires Moving(m, hm, p, heads, to, done, cur, lo, b, end, hi)
    ensures 1 <= lo <= b <= end <= hi && forall t :: t in p.tile ==> lo <= t < b
    ensures forall a :: a in to ==> a in p.live && a >= end && lo <= to[a] < b && to[a] !in p.live
    ensures forall a, b :: a in to && b in to && a != b ==> to[a] != to[b]
  {
  }

  lemma NamesUpdated(live: set<int>, to: map<int, int>, lo: int, b: int, end: int, limit: int, r: int, c: int,
                     names: map<int, int>, named: map<int, int>)
    requires 1 <= lo <= c < b <= end <= r && b <= limit && r !in to && c !in live && !IsTarget(to, c)
    requires forall a :: a in to ==> a in live && a >= end && lo <= to[a] < b && to[a] !in live
    requires forall a, b :: a in to && b in to && a != b ==> to[a] != to[b]
    requires NamesMoved(names, named, to, live, lo, limit)
    ensures ObjectTable.CanReaddress(names, r, c)
    ensures forall a, b :: a in names && b in names && a != b ==> names[a] != names[b]
    ensures NamesMoved(ObjectTable.Readdressed(names, r, c), named, to[r := c], live, lo, limit)
  {
    forall a | a in named
      ensures Renamed(to, named[a]) != c
      ensures Renamed(to, named[a]) == r <==> named[a] == r
      ensures Renamed(to[r := c], named[a]) == if Renamed(to, named[a]) == r then c else Renamed(to, named[a])
    {
      if named[a] in to {
        assert IsTarget(to, to[named[a]]);
      }
    }
    forall a, a' | a in named && a' in named && a != a'
      ensures Renamed(to, named[a]) != Renamed(to, named[a'])
    {
    }
  }

  /** When the table is gone through after the move, nothing in it changes. */
  lemma FollowedTwice(named: map<int, int>, to: map<int, int>, b: int, end: int)
    requires b <= end && forall a :: a in to ==> a >= end && to[a] < b
    ensures NamedNow(NamedNow(named, to), to) == NamedNow(named, to)
  {
    var once := NamedNow(named, to);
    assert NamedNow(once, to).Keys == once.Keys;
    assert forall a :: a in named ==> Renamed(to, once[a]) == once[a];
  }

  /** checkAndFindNew_old: it takes the first chunk of its size. */
  lemma PlaceMoving(m: seq<Word>, hm: seq<Word>, p: Plan, heads: map<int, int>, to: map<int, int>,
                    done: set<int>, cur: int, lo: int, b: int, end: int, hi: int, r: int)
    requires Moving(m, hm, p, heads, to, done, cur, lo, b, end, hi) && MarkedHeap(hm, p.live, p.len, lo, hi)
    requires end in p.len && r in p.live && r >= end && r !in to && r != cur
    ensures r in p.len && 0 <= r < |m| && m[r] == hm[r]
    ensures var s := p.len[r];
            && Chunks(p.lists, s) != []
            && var c := Chunks(p.lists, s)[0];
            && ListHead(heads, s) == c && 0 <= c < b && c < |m| && m[c].Link? && c in p.tile && p.tile[c] == s && !IsTarget(to, c)
            && Moving(Forwarding(m, r, c), hm, Reclaim(p, s), heads[s := m[c].next], to[r := c], done, cur, lo, b, end, hi)
  {
    hide Threaded, Forwarded, Above, Below, Fillers, Balance, Targets, ListsTiled, IsChunk, Tiling, AllCopied, IsTarget;
    PlaceFound(m, hm, p, heads, to, done, cur, lo, b, end, hi, r);
    var s := p.len[r];
    var c := Chunks(p.lists, s)[0];
    PlaceMemory(m, hm, p, to, done, cur, lo, b, end, r, c);
    PlaceThreads(m, p, heads, lo, b, end, r, s);
    PlaceFillers(m, p, to, lo, b, end, r, s);
    PlaceTargets(p, to, end, r);
    PlaceBalance(hm, p, to, lo, end, hi, r, c);
    ReclaimLists(p, s);
    PlaceAllCopied(m, hm, p, heads, to, done, cur, lo, b, end, hi, r, c);
    CopiedSame(Forwarding(m, r, c), hm, p, Reclaim(p, s), to[r := c], done, end);
    BelowSame(Forwarding(m, r, c), hm, p, Reclaim(p, s), b);
  }

  lemma BelowSame(m: seq<Word>, hm: seq<Word>, p: Plan, q: Plan, b: int)
    requires Below(m, hm, p, b) && q.live == p.live && q.len == p.len && q.tile == p.tile
    ensures Below(m, hm, q, b)
  {
  }

  lemma CopiedSame(m: seq<Word>, hm: seq<Word>, p: Plan, q: Plan, to: map<int, int>, done: set<int>, end: int)
    requires AllCopied(m, hm, p, to, done, end) && q.live == p.live && q.len == p.len
    ensures AllCopied(m, hm, q, to, done, end)
  {
    forall a | a in done
      ensures AllSettled(hm, q, to, end, a, p.len[a])
    {
      SettledSame(hm, p, q, to, end, a, p.len[a]);
    }
  }

  lemma AboveAt(m: seq<Word>, hm: seq<Word>, to: map<int, int>, end: int, r: int)
    requires Above(m, hm, to, end) && end <= r < |m| && 0 <= r && r !in to
    ensures m[r] == hm[r]
  {
  }

  lemma FirstChunk(p: Plan, to: map<int, int>, end: int, s: int)
    requires ListsTiled(p) && Targets(p, to, end) && Chunks(p.lists, s) != []
    ensures var c := Chunks(p.lists, s)[0];
            c in p.tile && p.tile[c] == s && c !in p.live && IsChunk(p, c) && !IsTarget(to, c)
  {
    assert ListTiled(p.tile, p.live, s, Chunks(p.lists, s));
  }

  lemma PlaceAllCopied(m: seq<Word>, hm: seq<Word>, p: Plan, heads: map<int, int>, to: map<int, int>,
                    done: set<int>, cur: int, lo: int, b: int, end: int, hi: int, r: int, c: int)
    requires Moving(m, hm, p, heads, to, done, cur, lo, b, end, hi)
    requires end <= r < |m| && r in p.live && r in p.len && r !in to && c in p.tile && !IsTarget(to, c) && 0 <= c < |m|
    ensures AllCopied(Forwarding(m, r, c), hm, p, to[r := c], done, end)
  {
    var m', to' := Forwarding(m, r, c), to[r := c];
    forall a | a in done
      ensures a in to' && a in p.len && Copied(m', hm, to', a, to'[a], p.len[a]) && AllSettled(hm, p, to', end, a, p.len[a])
    {
      assert IsTarget(to, to[a]);
      PlaceApart(p, lo, b, end, to[a], p.len[a], r, c);
      PlaceCopied(m, hm, p, to, end, r, c, a, p.len[a], p.len[a]);
      assert AllSettled(hm, p, to, end, a, p.len[a]);
      assert Settled(p, to, end, RefOf(hm[a]));
    }
  }

  // ----- moving the fields of the object at `cur` -----

  lemma TargetBounds(m: seq<Word>, hm: seq<Word>, p: Plan, heads: map<int, int>, to: map<int, int>,
                    done: set<int>, cur: int, lo: int, b: int, end: int, hi: int, a: int)
    requires Moving(m, hm, p, heads, to, done, cur, lo, b, end, hi) && a in to
    ensures a in p.live && a in p.len && a >= end && IsTarget(to, to[a])
    ensures to[a] in p.tile && p.tile[to[a]] == p.len[a] && to[a] !in p.live
    ensures 1 <= to[a] < to[a] + p.len[a] <= b <= end <= |m| == |hm|
    ensures m[a] == Forward(to[a])
    ensures a !in done && a != cur ==> m[to[a]] == hm[a]
  {
  }

  /** A write into the new place of the object being moved. */
  lemma WriteTarget(m: seq<Word>, hm: seq<Word>, p: Plan, heads: map<int, int>, to: map<int, int>,
                    done: set<int>, cur: int, lo: int, b: int, end: int, hi: int, k: int, w: Word)
    requires Moving(m, hm, p, heads, to, done, cur, lo, b, end, hi) && cur in to && to[cur] <= k < to[cur] + p.len[cur]
    ensures 0 <= k < |m| && Moving(m[k := w], hm, p, heads, to, done, cur, lo, b, end, hi)
  {
    hide Threaded, Forwarded, Above, Below, Fillers, Balance, ListsTiled, IsChunk, Tiling, AllCopied;
    TargetBounds(m, hm, p, heads, to, done, cur, lo, b, end, hi, cur);
    var t := to[cur];
    WriteTargetThreads(m, p, heads, to, lo, b, t, k, w);
    WriteTargetAround(m, hm, p, to, lo, b, end, t, k, w);
    WriteTargetForwarded(m, hm, p, to, done, cur, lo, b, end, k, w);
    WriteTargetCopied(m, hm, p, to, done, cur, lo, b, end, k, w);
  }

  lemma WriteTargetThreads(m: seq<Word>, p: Plan, heads: map<int, int>, to: map<int, int>, lo: int, b: int, t: int, k: int, w: Word)
    requires Tiling(p.tile, lo, b) && lo >= 1 && ListsTiled(p) && Threaded(m, heads, p.lists)
    requires t in p.tile && !IsChunk(p, t) && t <= k < t + p.tile[t] && 0 <= k < |m|
    ensures Threaded(m[k := w], heads, p.lists)
  {
    NoChunkInside(p, lo, b, t, k);
    forall s
      ensures Chained(m[k := w], ListHead(heads, s), Chunks(p.lists, s), Absent(s))
    {
      assert Chained(m, ListHead(heads, s), Chunks(p.lists, s), Absent(s));
      ChainWrite(m, ListHead(heads, s), Chunks(p.lists, s), Absent(s), k, w);
    }
  }

  lemma NoChunkInside(p: Plan, lo: int, b: int, t: int, k: int)
    requires Tiling(p.tile, lo, b) && ListsTiled(p)
    requires t in p.tile && !IsChunk(p, t) && t <= k < t + p.tile[t]
    ensures forall s {:trigger Chunks(p.lists, s)} :: k !in Chunks(p.lists, s)
  {
    forall s
      ensures k !in Chunks(p.lists, s)
    {
      assert ListTiled(p.tile, p.live, s, Chunks(p.lists, s));
    }
  }

  lemma WriteTargetAround(m: seq<Word>, hm: seq<Word>, p: Plan, to: map<int, int>, lo: int, b: int, end: int, t: int, k: int, w: Word)
    requires Tiling(p.tile, lo, b) && lo >= 1 && b <= end
    requires t in p.tile && t !in p.live && IsTarget(to, t) && t <= k < t + p.tile[t] && 0 <= k < |m|
    requires Above(m, hm, to, end) && Below(m, hm, p, b) && Fillers(m, p, to)
    ensures Above(m[k := w], hm, to, end) && Below(m[k := w], hm, p, b) && Fillers(m[k := w], p, to)
  {
  }

  lemma WriteTargetForwarded(m: seq<Word>, hm: seq<Word>, p: Plan, to: map<int, int>, done: set<int>, cur: int,
                             lo: int, b: int, end: int, k: int, w: Word)
    requires Tiling(p.tile, lo, b) && lo >= 1 && b <= end && Targets(p, to, end) && Forwarded(m, hm, to, done, cur)
    requires cur in to && to[cur] <= k < to[cur] + p.len[cur] && 0 <= k < |m|
    ensures Forwarded(m[k := w], hm, to, done, cur)
  {
  }

  lemma WriteTargetCopied(m: seq<Word>, hm: seq<Word>, p: Plan, to: map<int, int>, done: set<int>, cur: int,
                          lo: int, b: int, end: int, k: int, w: Word)
    requires Tiling(p.tile, lo, b) && lo >= 1 && b <= end && Targets(p, to, end)
    requires cur in to && to[cur] <= k < to[cur] + p.len[cur] && 0 <= k < |m| && cur !in done
    requires AllCopied(m, hm, p, to, done, end)
    ensures AllCopied(m[k := w], hm, p, to, done, end)
  {
    forall a | a in done
      ensures Copied(m[k := w], hm, to, a, to[a], p.len[a])
    {
      assert Copied(m, hm, to, a, to[a], p.len[a]);
      assert to[a] != to[cur];
      assert to[a] + p.len[a] <= to[cur] || to[cur] + p.len[cur] <= to[a];
    }
  }

  /** The object `o` is taken up. */
  lemma BeginMove(m: seq<Word>, hm: seq<Word>, p: Plan, heads: map<int, int>, to: map<int, int>,
                  done: set<int>, o: int, lo: int, b: int, end: int, hi: int)
    requires Moving(m, hm, p, heads, to, done, NIL, lo, b, end, hi) && o in to && o !in done
    ensures Moving(m, hm, p, heads, to, done, o, lo, b, end, hi) && m[to[o]] == hm[o]
  {
  }

  /** Its fields have been moved. */
  lemma EndMove(m: seq<Word>, hm: seq<Word>, p: Plan, heads: map<int, int>, to: map<int, int>,
                    done: set<int>, cur: int, lo: int, b: int, end: int, hi: int)
    requires Moving(m, hm, p, heads, to, done, cur, lo, b, end, hi) && cur in to && cur in p.len
    requires Copied(m, hm, to, cur, to[cur], p.len[cur]) && AllSettled(hm, p, to, end, cur, p.len[cur])
    ensures Moving(m, hm, p, heads, to, done + {cur}, NIL, lo, b, end, hi)
  {
  }

  /** The plan of the sweep is where the move starts. */
  lemma StartMove(m: seq<Word>, hm: seq<Word>, p: Plan, heads: map<int, int>, lo: int, b: int, end: int, hi: int)
    requires Complete(m, hm, p, heads, lo, b, end, hi) && MarkedHeap(hm, p.live, p.len, lo, hi) && end <= hi <= |m|
    ensures Moving(m, hm, p, heads, map[], {}, NIL, lo, b, end, hi)
  {
    var none: map<int, int> := map[];
    assert p.live - none.Keys == p.live;
    forall a | a in p.live && a < b
      ensures a in p.tile && a in p.len && p.tile[a] == p.len[a]
    {
    }
  }

  /** The live objects refer to live objects, and none lies in the gap between
      the boundary and the end of the sweep. */
  ghost predicate Reachables(hm: seq<Word>, p: Plan, lo: int, b: int, end: int, hi: int, limit: int) {
    && MarkedHeap(hm, p.live, p.len, lo, hi) && hi <= limit
    && (forall a, k :: a in p.live && a in p.len && a < k < a + p.len[a] && 0 <= k < |hm| ==> IsField(hm[k]))
    && (forall a :: a in p.live ==> a < b || a >= end)
    && (forall a, k :: a in p.live && a in p.len && a <= k < a + p.len[a] && 0 <= k < |hm| ==>
          (lo <= RefOf(hm[k]) < limit ==> RefOf(hm[k]) in p.live))
    && (end == hi || end in p.len)
  }

  lemma ReachablesSame(hm: seq<Word>, p: Plan, p': Plan, lo: int, b: int, end: int, hi: int, limit: int)
    requires Reachables(hm, p, lo, b, end, hi, limit) && p'.live == p.live && p'.len == p.len
    ensures Reachables(hm, p', lo, b, end, hi, limit)
  {
  }

  /** The words of an object that is being moved, in its old place. */
  lemma BodyWord(m: seq<Word>, hm: seq<Word>, p: Plan, heads: map<int, int>, to: map<int, int>,
                    done: set<int>, cur: int, lo: int, b: int, end: int, hi: int, limit: int, a: int, i: int)
    requires Moving(m, hm, p, heads, to, done, cur, lo, b, end, hi) && Reachables(hm, p, lo, b, end, hi, limit)
    requires a in to && 1 <= i < p.len[a]
    ensures 0 <= a && a + i < |m| == |hm| && m[a + i] == hm[a + i] && IsField(hm[a + i])
    ensures lo <= RefOf(hm[a + i]) < limit ==> RefOf(hm[a + i]) in p.live
  {
    assert a in p.len && a in p.live;
    assert a + i !in p.len;
    assert a + i !in to;
  }

  lemma HeadWord(hm: seq<Word>, p: Plan, lo: int, b: int, end: int, hi: int, limit: int, a: int)
    requires Reachables(hm, p, lo, b, end, hi, limit) && a in p.live
    ensures a in p.len && 0 <= a < |hm| && a + p.len[a] <= |hm| && p.len[a] >= 1
    ensures hm[a].Head? && hm[a].size == p.len[a] && hm[a].mark
    ensures lo <= hm[a].ct < limit ==> hm[a].ct in p.live
  {
  }

  /** Where a live object stands: below the boundary, forwarded, or as it was. */
  lemma WhereIs(m: seq<Word>, hm: seq<Word>, p: Plan, heads: map<int, int>, to: map<int, int>,
                    done: set<int>, cur: int, lo: int, b: int, end: int, hi: int, limit: int, r: int)
    requires Moving(m, hm, p, heads, to, done, cur, lo, b, end, hi) && Reachables(hm, p, lo, b, end, hi, limit) && r in p.live
    ensures 0 <= r < |m| && (r in to ==> r >= b && m[r] == Forward(to[r]))
    ensures r !in to && r >= b ==> r >= end && m[r] == hm[r] && end in p.len
  {
    HeadWord(hm, p, lo, b, end, hi, limit, r);
  }

  lemma StaysPut(m: seq<Word>, hm: seq<Word>, p: Plan, heads: map<int, int>, to: map<int, int>,
                    done: set<int>, cur: int, lo: int, b: int, end: int, hi: int, limit: int, r: int)
    requires Moving(m, hm, p, heads, to, done, cur, lo, b, end, hi) && Reachables(hm, p, lo, b, end, hi, limit)
    requires r < b || r < lo || limit <= r
    ensures r !in to && Settled(p, to, end, r)
  {
  }

  lemma ReachablesMarked(hm: seq<Word>, p: Plan, lo: int, b: int, end: int, hi: int, limit: int)
    requires Reachables(hm, p, lo, b, end, hi, limit)
    ensures MarkedHeap(hm, p.live, p.len, lo, hi)
  {
  }

  /** The first `i` words of the object at `a`, whose new place is at `t` and
      of `n` words, have been moved; the flags word there names type `ct`. */
  ghost predicate Progressing(m: seq<Word>, hm: seq<Word>, p: Plan, to: map<int, int>, end: int,
                              a: int, i: int, ct: int)
  {
    && a in to && a in p.len && 0 <= i <= p.len[a] && 0 <= to[a] < |m|
    && CopiedUpTo(m, hm, to, a, to[a], p.len[a], if i == 0 then 1 else i)
    && AllSettled(hm, p, to, end, a, i)
    && m[to[a]] == Head(p.len[a], true, ct)
  }

  lemma PlaceProgress(m: seq<Word>, hm: seq<Word>, p: Plan, heads: map<int, int>, to: map<int, int>,
                    done: set<int>, cur: int, lo: int, b: int, end: int, hi: int, r: int, c: int, i: int, ct: int, q: Plan)
    requires Moving(m, hm, p, heads, to, done, cur, lo, b, end, hi) && Progressing(m, hm, p, to, end, cur, i, ct)
    requires end <= r < |m| && r in p.live && r !in to && c in p.tile && !IsTarget(to, c)
    requires q.live == p.live && q.len == p.len
    ensures 0 <= c < |m| && Progressing(Forwarding(m, r, c), hm, q, to[r := c], end, cur, i, ct)
  {
    hide Threaded, Forwarded, Above, Below, Fillers, Balance, ListsTiled, AllCopied;
    assert c < b && IsTarget(to, to[cur]);
    PlaceApart(p, lo, b, end, to[cur], p.len[cur], r, c);
    if i > 0 {
      PlaceCopied(m, hm, p, to, end, r, c, cur, p.len[cur], i);
    }
    SettledSame(hm, p, q, to[r := c], end, cur, i);
  }

  lemma ProgressStart(m: seq<Word>, hm: seq<Word>, p: Plan, heads: map<int, int>, to: map<int, int>,
                    done: set<int>, cur: int, lo: int, b: int, end: int, hi: int)
    requires Moving(m, hm, p, heads, to, done, cur, lo, b, end, hi) && cur in to && m[to[cur]] == hm[cur] && MarkedHeap(hm, p.live, p.len, lo, hi)
    ensures Progressing(m, hm, p, to, end, cur, 0, hm[cur].ct)
  {
    TargetBounds(m, hm, p, heads, to, done, cur, lo, b, end, hi, cur);
    MarkedNext(hm, p.live, p.len, lo, hi, cur);
  }

  /** The flags word names the new place of the type. */
  lemma ProgressHead(m: seq<Word>, hm: seq<Word>, p: Plan, heads: map<int, int>, to: map<int, int>,
                    done: set<int>, cur: int, lo: int, b: int, end: int, hi: int, ct: int)
    requires Moving(m, hm, p, heads, to, done, cur, lo, b, end, hi) && Progressing(m, hm, p, to, end, cur, 0, ct) && 0 <= cur < |hm|
    requires Settled(p, to, end, RefOf(hm[cur]))
    ensures var m' := m[to[cur] := Head(p.len[cur], true, Renamed(to, RefOf(hm[cur])))];
            && Progressing(m', hm, p, to, end, cur, 1, Renamed(to, RefOf(hm[cur])))
            && Moving(m', hm, p, heads, to, done, cur, lo, b, end, hi)
  {
    hide Moving;
    var w := Head(p.len[cur], true, Renamed(to, RefOf(hm[cur])));
    TargetBounds(m, hm, p, heads, to, done, cur, lo, b, end, hi, cur);
    WriteTarget(m, hm, p, heads, to, done, cur, lo, b, end, hi, to[cur], w);
    SettledNext(hm, p, to, end, cur, 0);
  }

  /** Another word is moved. */
  lemma ProgressNext(m: seq<Word>, hm: seq<Word>, p: Plan, heads: map<int, int>, to: map<int, int>,
                    done: set<int>, cur: int, lo: int, b: int, end: int, hi: int, i: int, ct: int)
    requires Moving(m, hm, p, heads, to, done, cur, lo, b, end, hi) && Progressing(m, hm, p, to, end, cur, i, ct)
    requires 1 <= i < p.len[cur] && 0 <= cur + i < |hm| && Settled(p, to, end, RefOf(hm[cur + i]))
    ensures var k := to[cur] + i;
            && 0 <= k < |m|
            && Progressing(m[k := MapWord(to, hm[cur + i])], hm, p, to, end, cur, i + 1, ct)
            && Moving(m[k := MapWord(to, hm[cur + i])], hm, p, heads, to, done, cur, lo, b, end, hi)
  {
    hide Moving;
    var w := MapWord(to, hm[cur + i]);
    TargetBounds(m, hm, p, heads, to, done, cur, lo, b, end, hi, cur);
    WriteTarget(m, hm, p, heads, to, done, cur, lo, b, end, hi, to[cur] + i, w);
    CopiedNext(m, hm, to, cur, to[cur], p.len[cur], i, w);
    SettledNext(hm, p, to, end, cur, i);
  }

  lemma HeadSettled(m: seq<Word>, hm: seq<Word>, p: Plan, to: map<int, int>, end: int, a: int, i: int, ct: int)
    requires Progressing(m, hm, p, to, end, a, i, ct) && i >= 1 && 0 <= a < |hm|
    ensures Settled(p, to, end, RefOf(hm[a]))
  {
  }

  lemma DataSettled(p: Plan, to: map<int, int>, end: int, lo: int, b: int, hi: int, limit: int, hm: seq<Word>)
    requires Reachables(hm, p, lo, b, end, hi, limit)
    ensures lo >= 1 && Settled(p, to, end, NIL)
  {
  }

  /** All words are moved and the mark is cleared. */
  lemma ProgressEnd(m: seq<Word>, hm: seq<Word>, p: Plan, heads: map<int, int>, to: map<int, int>,
                    done: set<int>, cur: int, lo: int, b: int, end: int, hi: int)
    requires Moving(m, hm, p, heads, to, done, cur, lo, b, end, hi) && cur in p.len && 0 <= cur < |hm| && hm[cur].Head?
    requires Progressing(m, hm, p, to, end, cur, p.len[cur], Renamed(to, hm[cur].ct)) && p.len[cur] >= 1
    ensures Moving(m[to[cur] := Head(p.len[cur], false, Renamed(to, hm[cur].ct))], hm, p, heads, to, done + {cur}, NIL, lo, b, end, hi)
  {
    hide Moving;
    var w := Head(p.len[cur], false, Renamed(to, hm[cur].ct));
    TargetBounds(m, hm, p, heads, to, done, cur, lo, b, end, hi, cur);
    WriteTarget(m, hm, p, heads, to, done, cur, lo, b, end, hi, to[cur], w);
    EndMove(m[to[cur] := w], hm, p, heads, to, done, cur, lo, b, end, hi);
  }

  lemma SettledSame(hm: seq<Word>, p: Plan, p': Plan, to: map<int, int>, end: int, a: int, i: int)
    requires AllSettled(hm, p, to, end, a, i) && p'.live == p.live
    ensures AllSettled(hm, p', to, end, a, i)
  {
    forall k | a <= k < a + i && 0 <= k < |hm|
      ensures Settled(p', to, end, RefOf(hm[k]))
    {
      assert Settled(p, to, end, RefOf(hm[k]));
    }
  }

  /** One more word copied. */
  lemma CopiedNext(m: seq<Word>, hm: seq<Word>, to: map<int, int>, a: int, t: int, n: int, i: int, w: Word)
    requires CopiedUpTo(m, hm, to, a, t, n, i) && i < n && w == MapWord(to, hm[a + i])
    ensures CopiedUpTo(m[t + i := w], hm, to, a, t, n, i + 1) && (m[t + i := w])[t] == m[t]
  {
  }

  lemma SettledNext(hm: seq<Word>, p: Plan, to: map<int, int>, end: int, a: int, i: int)
    requires AllSettled(hm, p, to, end, a, i) && 0 <= a + i < |hm| && Settled(p, to, end, RefOf(hm[a + i]))
    ensures AllSettled(hm, p, to, end, a, i + 1)
  {
  }

  /** What the sweep finds at an object `o` beyond the boundary. */
  lemma AtObject(m: seq<Word>, hm: seq<Word>, p: Plan, heads: map<int, int>, to: map<int, int>,
                    done: set<int>, cur: int, lo: int, b: int, end: int, hi: int, limit: int, o: int)
    requires Moving(m, hm, p, heads, to, done, cur, lo, b, end, hi) && Reachables(hm, p, lo, b, end, hi, limit) && o in p.len && o >= end
    ensures 0 <= o < |m| == |hm| && o + p.len[o] <= hi && p.len[o] >= 1 && (o + p.len[o] == hi || o + p.len[o] in p.len)
    ensures o in to ==> o in p.live && m[o] == Forward(to[o])
    ensures o !in to ==> m[o] == hm[o] && m[o].Head? && m[o].size == p.len[o] && (m[o].mark <==> o in p.live)
    ensures forall a :: a in p.live && a > o ==> a >= o + p.len[o]
    ensures end in p.len && o != NIL
  {
    MarkedNext(hm, p.live, p.len, lo, hi, o);
  }

  /** After the move: every live object beyond the boundary is in its new place,
      no chunk is left, and the space below the boundary is gap-free again. */
  ghost predicate MovedAll(m: seq<Word>, hm: seq<Word>, p: Plan, to: map<int, int>, lo: int, b: int, end: int) {
    && 1 <= lo <= b <= end && |m| == |hm| && Tiling(p.tile, lo, b)
    && (forall a :: a in to <==> a in p.live && a >= end)
    && Targets(p, to, end) && Below(m, hm, p, b) && Above(m, hm, to, end)
    && (forall a :: a in to ==> a in p.len && Copied(m, hm, to, a, to[a], p.len[a]))
    && (forall a :: a in p.tile && a !in p.live && !IsTarget(to, a) ==> IsFiller(m, a, p.tile[a]))
    && (forall a :: a in to ==> 0 <= a < |m| && m[a] == Forward(to[a]))
  }

  lemma MoveComplete(m: seq<Word>, hm: seq<Word>, p: Plan, heads: map<int, int>, to: map<int, int>,
                     done: set<int>, lo: int, b: int, end: int, hi: int)
    requires Moving(m, hm, p, heads, to, done, NIL, lo, b, end, hi)
    requires forall a :: a in p.live && a >= end ==> a in done
    ensures MovedAll(m, hm, p, to, lo, b, end)
  {
    forall a | a in p.tile
      ensures !IsChunk(p, a)
    {
      var s := p.tile[a];
      forall x | x in p.len && end <= x
        ensures x in p.live - to.Keys <==> x in {}
      {
        assert x in p.live ==> x in done && x in to;
      }
      LiveSame(p.live - to.Keys, {}, p.len, end, hi, s);
      LiveNone(p.len, end, hi, s);
      assert |Chunks(p.lists, s)| == LiveCount(p.live - to.Keys, p.len, end, hi, s);
    }
  }
}
