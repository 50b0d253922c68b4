/** The last part of an old-generation collection (vm/gc.c): every reference is
    brought up to date, and what the whole collection has then achieved. */
module CompactionEnd {
  import opened Heap
  import opened SizeTable
  import opened CompactionPlan
  import opened CompactionMove
  import opened Marking

  /** The new places, fixed from now on. */
  ghost predicate Homes(p: Plan, to: map<int, int>, lo: int, b: int, end: int) {
    && 1 <= lo <= b <= end && Tiling(p.tile, lo, b) && Targets(p, to, end)
    && (forall a :: a in to <==> a in p.live && a >= end)
    && (forall a :: a in p.live && a < b ==> a in p.tile && a in p.len && p.tile[a] == p.len[a])
  }

  /** The objects that moved are complete in their new places. */
  ghost predicate MovedIn(m: seq<Word>, hm: seq<Word>, p: Plan, to: map<int, int>) {
    forall a :: a in to ==> a in p.len && Copied(m, hm, to, a, to[a], p.len[a])
  }

  /** The objects below `o` that stay have been brought up to date. */
  ghost predicate Updated(m: seq<Word>, hm: seq<Word>, p: Plan, to: map<int, int>, b: int, o: int) {
    forall a :: a in p.live && a < b && a < o ==> a in p.len && Copied(m, hm, to, a, a, p.len[a])
  }

  /** Those from `o` on have not been looked at. */
  ghost predicate Waiting(m: seq<Word>, hm: seq<Word>, p: Plan, b: int, o: int) {
    && |m| == |hm|
    && (forall a, k :: a in p.live && o <= a < b && a in p.len && a <= k < a + p.len[a] && 0 <= k < |m| ==> m[k] == hm[k])
  }

  /** Everything else below the boundary is filler. */
  ghost predicate Padded(m: seq<Word>, p: Plan, to: map<int, int>) {
    forall a :: a in p.tile && a !in p.live && !IsTarget(to, a) ==> IsFiller(m, a, p.tile[a])
  }

  /** What moved left a forwarding pointer. */
  ghost predicate Forwards(m: seq<Word>, to: map<int, int>) {
    forall a :: a in to ==> 0 <= a < |m| && m[a] == Forward(to[a])
  }

  /** The fix-up of the old generation has reached `o`. */
  ghost predicate Settling(m: seq<Word>, hm: seq<Word>, p: Plan, to: map<int, int>, lo: int, b: int, end: int, o: int) {
    && Homes(p, to, lo, b, end) && MovedIn(m, hm, p, to) && Updated(m, hm, p, to, b, o)
    && Waiting(m, hm, p, b, o) && Padded(m, p, to) && Forwards(m, to)
  }

  lemma SettleStart(m: seq<Word>, hm: seq<Word>, p: Plan, to: map<int, int>, lo: int, b: int, end: int)
    requires MovedAll(m, hm, p, to, lo, b, end)
    ensures Settling(m, hm, p, to, lo, b, end, lo)
  {
    assert forall a :: a in p.live && a < b ==> a in p.tile && lo <= a;
  }

  /** `m'` is `m` with the words of `[from, upto)` renamed. */
  ghost predicate RenamedWords(m: seq<Word>, m': seq<Word>, to: map<int, int>, from: int, upto: int) {
    && |m'| == |m|
    && (forall k :: 0 <= k < |m| && from <= k < upto ==> m'[k] == MapWord(to, m[k]))
    && (forall k :: 0 <= k < |m| && (k < from || upto <= k) ==> m'[k] == m[k])
  }

  lemma RenamedNone(m: seq<Word>, to: map<int, int>, from: int)
    ensures RenamedWords(m, m, to, from, from)
  {
  }

  lemma RenamedNext(m: seq<Word>, m': seq<Word>, to: map<int, int>, from: int, k: int)
    requires RenamedWords(m, m', to, from, k) && 0 <= from <= k < |m|
    ensures m'[k] == m[k] && RenamedWords(m, m'[k := MapWord(to, m[k])], to, from, k + 1)
  {
  }

  lemma CopiedFrame(m: seq<Word>, m': seq<Word>, hm: seq<Word>, to: map<int, int>, a: int, t: int, n: int)
    requires Copied(m, hm, to, a, t, n) && |m'| == |m|
    requires forall k :: t <= k < t + n && 0 <= k < |m| ==> m'[k] == m[k]
    ensures Copied(m', hm, to, a, t, n)
  {
  }

  /** The object at tile `o` is written, or nothing is. */
  ghost predicate WritesTile(m: seq<Word>, m': seq<Word>, o: int, n: int) {
    |m'| == |m| && forall k :: 0 <= k < |m| && (k < o || o + n <= k) ==> m'[k] == m[k]
  }

  lemma NextMovedIn(m: seq<Word>, m': seq<Word>, hm: seq<Word>, p: Plan, to: map<int, int>,
                    lo: int, b: int, end: int, o: int)
    requires Homes(p, to, lo, b, end) && MovedIn(m, hm, p, to)
    requires o in p.tile && WritesTile(m, m', o, p.tile[o]) && !IsTarget(to, o)
    ensures MovedIn(m', hm, p, to)
  {
    forall a | a in to
      ensures a in p.len && Copied(m', hm, to, a, to[a], p.len[a])
    {
      assert IsTarget(to, to[a]);
      assert to[a] in p.tile && to[a] != o && p.tile[to[a]] == p.len[a];
      CopiedFrame(m, m', hm, to, a, to[a], p.len[a]);
    }
  }

  lemma NextUpdated(m: seq<Word>, m': seq<Word>, hm: seq<Word>, p: Plan, to: map<int, int>,
                    lo: int, b: int, end: int, o: int)
    requires Homes(p, to, lo, b, end) && Updated(m, hm, p, to, b, o)
    requires o in p.tile && WritesTile(m, m', o, p.tile[o])
    requires o in p.live ==> Copied(m', hm, to, o, o, p.tile[o])
    ensures Updated(m', hm, p, to, b, o + p.tile[o])
  {
    forall a | a in p.live && a < b && a < o + p.tile[o]
      ensures a in p.len && Copied(m', hm, to, a, a, p.len[a])
    {
      assert a in p.tile && p.tile[a] == p.len[a];
      if a != o {
        assert a < o && a + p.len[a] <= o;
        CopiedFrame(m, m', hm, to, a, a, p.len[a]);
      }
    }
  }

  lemma NextRest(m: seq<Word>, m': seq<Word>, hm: seq<Word>, p: Plan, to: map<int, int>,
                 lo: int, b: int, end: int, o: int)
    requires Homes(p, to, lo, b, end) && Waiting(m, hm, p, b, o) && Forwards(m, to)
    requires o in p.tile && WritesTile(m, m', o, p.tile[o])
    ensures Waiting(m', hm, p, b, o + p.tile[o]) && Forwards(m', to)
  {
  }

  lemma NextPadded(m: seq<Word>, m': seq<Word>, p: Plan, to: map<int, int>, lo: int, b: int, o: int)
    requires Tiling(p.tile, lo, b) && Padded(m, p, to) && o in p.tile && o in p.live
    requires WritesTile(m, m', o, p.tile[o])
    ensures Padded(m', p, to)
  {
    forall a | a in p.tile && a !in p.live && !IsTarget(to, a)
      ensures IsFiller(m', a, p.tile[a])
    {
      assert IsFiller(m, a, p.tile[a]);
      assert a < o || o + p.tile[o] <= a;
    }
  }

  lemma LiveNoTarget(p: Plan, to: map<int, int>, end: int, o: int)
    requires Targets(p, to, end) && o in p.live
    ensures !IsTarget(to, o)
  {
  }

  /** A marked object is brought up to date and its mark cleared. */
  lemma SettleLive(m: seq<Word>, m': seq<Word>, hm: seq<Word>, p: Plan, to: map<int, int>,
                   lo: int, b: int, end: int, o: int)
    requires Settling(m, hm, p, to, lo, b, end, o) && o in p.tile && o in p.live
    requires WritesTile(m, m', o, p.tile[o]) && Copied(m', hm, to, o, o, p.tile[o])
    ensures Settling(m', hm, p, to, lo, b, end, o + p.tile[o])
  {
    hide Copied, IsTarget, WritesTile, Waiting, Updated, Padded, Forwards, MovedIn, Tiling, IsFiller;
    LiveNoTarget(p, to, end, o);
    NextMovedIn(m, m', hm, p, to, lo, b, end, o);
    NextUpdated(m, m', hm, p, to, lo, b, end, o);
    NextRest(m, m', hm, p, to, lo, b, end, o);
    NextPadded(m, m', p, to, lo, b, o);
  }

  /** Any other object is left alone. */
  lemma SettleDead(m: seq<Word>, hm: seq<Word>, p: Plan, to: map<int, int>, lo: int, b: int, end: int, o: int)
    requires Settling(m, hm, p, to, lo, b, end, o) && o in p.tile && o !in p.live
    ensures Settling(m, hm, p, to, lo, b, end, o + p.tile[o])
  {
    hide Copied, IsTarget, Waiting, Updated, Padded, Forwards, MovedIn, Tiling, IsFiller;
    NextUpdated(m, m, hm, p, to, lo, b, end, o);
    NextRest(m, m, hm, p, to, lo, b, end, o);
  }

  /** Words of the young generation do not matter. */
  lemma SettleOutside(m: seq<Word>, m': seq<Word>, hm: seq<Word>, p: Plan, to: map<int, int>,
                      lo: int, b: int, end: int, o: int, hi: int, limit: int)
    requires Settling(m, hm, p, to, lo, b, end, o) && end <= hi <= limit && MarkedHeap(hm, p.live, p.len, lo, hi)
    requires |m'| == |m| && forall k :: 0 <= k < |m| && k < limit ==> m'[k] == m[k]
    ensures Settling(m', hm, p, to, lo, b, end, o)
  {
    hide Copied, IsTarget, MarkedHeap;
    OutsideCopied(m, m', hm, p, to, lo, b, end, o);
    OutsideRest(m, m', hm, p, to, lo, b, end, o, hi, limit);
  }

  lemma OutsideCopied(m: seq<Word>, m': seq<Word>, hm: seq<Word>, p: Plan, to: map<int, int>,
                      lo: int, b: int, end: int, o: int)
    requires Homes(p, to, lo, b, end) && MovedIn(m, hm, p, to) && Updated(m, hm, p, to, b, o)
    requires |m'| == |m| && forall k :: 0 <= k < |m| && k < end ==> m'[k] == m[k]
    ensures MovedIn(m', hm, p, to) && Updated(m', hm, p, to, b, o)
  {
    hide Copied;
    forall a | a in to
      ensures a in p.len && Copied(m', hm, to, a, to[a], p.len[a])
    {
      assert to[a] in p.tile && p.tile[to[a]] == p.len[a];
      CopiedFrame(m, m', hm, to, a, to[a], p.len[a]);
    }
    forall a | a in p.live && a < b && a < o
      ensures a in p.len && Copied(m', hm, to, a, a, p.len[a])
    {
      assert a in p.tile;
      CopiedFrame(m, m', hm, to, a, a, p.len[a]);
    }
  }

  lemma OutsideRest(m: seq<Word>, m': seq<Word>, hm: seq<Word>, p: Plan, to: map<int, int>,
                    lo: int, b: int, end: int, o: int, hi: int, limit: int)
    requires Homes(p, to, lo, b, end) && Waiting(m, hm, p, b, o) && Padded(m, p, to) && Forwards(m, to)
    requires end <= hi <= limit && MarkedHeap(hm, p.live, p.len, lo, hi)
    requires |m'| == |m| && forall k :: 0 <= k < |m| && k < limit ==> m'[k] == m[k]
    ensures Waiting(m', hm, p, b, o) && Padded(m', p, to) && Forwards(m', to)
  {
    hide IsTarget;
    forall a, k | a in p.live && o <= a < b && a in p.len && a <= k < a + p.len[a] && 0 <= k < |m|
      ensures m'[k] == hm[k]
    {
      assert a in p.tile && a + p.tile[a] <= b;
    }
  }

  /** What the fix-up sees at tile `o`. */
  lemma SettleSees(m: seq<Word>, hm: seq<Word>, p: Plan, to: map<int, int>, lo: int, b: int, end: int, o: int, hi: int)
    requires Settling(m, hm, p, to, lo, b, end, o) && MarkedHeap(hm, p.live, p.len, lo, hi) && o in p.tile && end <= hi
    ensures 0 <= o < o + p.tile[o] <= b <= |m| && p.tile[o] >= 1
    ensures o + p.tile[o] == b || o + p.tile[o] in p.tile
    ensures m[o].Head? && m[o].size == p.tile[o] && (m[o].mark <==> o in p.live)
    ensures |m| == |hm| && (o in p.live ==> o in p.len)
    ensures o in p.live ==> p.len[o] == p.tile[o] && forall k :: o <= k < o + p.tile[o] ==> m[k] == hm[k]
  {
    assert Followed(p.tile, o, b);
    if o !in p.live && IsTarget(to, o) {
      var a :| a in to && to[a] == o;
      assert Copied(m, hm, to, a, to[a], p.len[a]);
    }
  }

  lemma SettleDone(m: seq<Word>, hm: seq<Word>, p: Plan, to: map<int, int>, lo: int, b: int, end: int, o: int)
    requires Settling(m, hm, p, to, lo, b, end, o)
    ensures Homes(p, to, lo, b, end) && Forwards(m, to)
  {
  }
}
