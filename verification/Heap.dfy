/** The heap of vm/gc.c as an array of tagged words. */
module Heap {

  /** One word.  `Head` is the flags word of an object with everything the
      collectors read through it: the object's size in words, the mark (or
      remembered) bit and the concrete type.  The collectors overwrite it with
      a forwarding pointer or with the link of a free list. */
  datatype Word =
    | Head(size: int, mark: bool, ct: int)
    | Forward(to: int)
    | Link(next: int)
    | Ref(target: int)
    | Data(bits: int)

  const NIL: int := -1

  /** The reference a word holds; NIL if it holds none. */
  function RefOf(w: Word): int {
    match w
    case Head(_, _, ct) => ct
    case Ref(target) => target
    case _ => NIL
  }

  function Renamed(to: map<int, int>, r: int): int {
    if r in to then to[r] else r
  }

  /** The word with its reference renamed. */
  function MapWord(to: map<int, int>, w: Word): Word {
    match w
    case Head(size, mark, ct) => Head(size, mark, Renamed(to, ct))
    case Ref(target) => Ref(Renamed(to, target))
    case _ => w
  }

  /** A field's reference and a flags word's type are what a word refers to, and
      alone are renamed. */
  lemma WordMeans(to: map<int, int>, w: Word)
    ensures w.Ref? ==> RefOf(w) == w.target && MapWord(to, w) == Ref(if w.target in to then to[w.target] else w.target)
    ensures w.Head? ==> RefOf(w) == w.ct && MapWord(to, w) == Head(w.size, w.mark, if w.ct in to then to[w.ct] else w.ct)
    ensures w.Data? || w.Forward? || w.Link? ==> RefOf(w) == -1 && MapWord(to, w) == w
    ensures IsField(w) <==> w.Ref? || w.Data?
  {
  }

  /** A body of `n` words copied from `a` to `t` with its references renamed. */
  lemma BodyMeans(m: seq<Word>, m': seq<Word>, to: map<int, int>, a: int, t: int, n: int)
    requires 0 <= a && a + n <= |m| && 0 <= t && t + n <= |m'|
    requires forall k :: t < k < t + n ==> m'[k] == MapWord(to, m[k - t + a])
    ensures forall k :: a < k < a + n && m[k].Ref? ==> m'[k - a + t] == Ref(if m[k].target in to then to[m[k].target] else m[k].target)
    ensures forall k :: a < k < a + n && m[k].Data? ==> m'[k - a + t] == m[k]
  {
    forall k | a < k < a + n
      ensures m'[k - a + t] == MapWord(to, m[k])
    {
      var j := k - a + t;
      assert m'[j] == MapWord(to, m[j - t + a]);
    }
  }

  /** Body words are references or plain data. */
  predicate IsField(w: Word) {
    w.Ref? || w.Data?
  }

  // ----- tilings: [lo, hi) divided into pieces, start -> length -----

  ghost predicate Tiling(len: map<int, int>, lo: int, hi: int) {
    && lo <= hi
    && (lo < hi ==> lo in len)
    && (forall a :: a in len ==> lo <= a < a + len[a] <= hi)
    && (forall a {:trigger Followed(len, a, hi)} :: a in len ==> Followed(len, a, hi))
    && (forall a, b :: a in len && b in len && a < b ==> a + len[a] <= b)
  }

  /** Where piece `a` ends, the next one starts. */
  ghost predicate Followed(len: map<int, int>, a: int, hi: int) {
    a in len && (a + len[a] == hi || a + len[a] in len)
  }

  /** The pieces follow one another from one end to the other. */
  lemma TilingMeans(len: map<int, int>, lo: int, hi: int, a: int, b: int)
    requires Tiling(len, lo, hi) && a in len && b in len
    ensures len[a] >= 1 && lo <= a && a + len[a] <= hi && (a < b ==> a + len[a] <= b)
    ensures lo in len && (a + len[a] < hi ==> a + len[a] in len)
  {
    assert Followed(len, a, hi);
  }

  /** A new piece is added at the end. */
  lemma TilingAppend(len: map<int, int>, lo: int, hi: int, n: int)
    requires Tiling(len, lo, hi) && n >= 1
    ensures Tiling(len[hi := n], lo, hi + n) && hi !in len
  {
    var len' := len[hi := n];
    assert hi !in len;
    AppendPieces(len, len', lo, hi, n);
    AppendOrder(len, len', lo, hi, n);
  }

  lemma AppendPieces(len: map<int, int>, len': map<int, int>, lo: int, hi: int, n: int)
    requires Tiling(len, lo, hi) && n >= 1 && hi !in len && len' == len[hi := n]
    ensures forall a :: a in len' ==> lo <= a < a + len'[a] <= hi + n
    ensures forall a {:trigger Followed(len', a, hi + n)} :: a in len' ==> Followed(len', a, hi + n)
  {
    forall a | a in len'
      ensures lo <= a < a + len'[a] <= hi + n && Followed(len', a, hi + n)
    {
      assert a != hi ==> Followed(len, a, hi);
    }
  }

  lemma AppendOrder(len: map<int, int>, len': map<int, int>, lo: int, hi: int, n: int)
    requires Tiling(len, lo, hi) && n >= 1 && hi !in len && len' == len[hi := n]
    ensures forall a, b :: a in len' && b in len' && a < b ==> a + len'[a] <= b
  {
    forall a, b | a in len' && b in len' && a < b
      ensures a + len'[a] <= b
    {
      if b == hi {
        assert a in len;
      }
    }
  }

  /** The last piece grows. */
  lemma TilingGrow(len: map<int, int>, lo: int, hi: int, a: int, n: int)
    requires Tiling(len, lo, hi) && n >= 1
    requires a in len && a + len[a] == hi
    ensures Tiling(len[a := len[a] + n], lo, hi + n)
  {
    TilingCut(len, lo, hi, a);
    TilingAppend(len - {a}, lo, a, len[a] + n);
    assert (len - {a})[a := len[a] + n] == len[a := len[a] + n];
  }

  function Split(len: map<int, int>, a: int, n: int): map<int, int>
    requires a in len
  {
    len[a := n][a + n := len[a] - n]
  }

  /** A piece is split in two. */
  lemma TilingSplit(len: map<int, int>, lo: int, hi: int, a: int, n: int)
    requires Tiling(len, lo, hi) && a in len && 1 <= n < len[a]
    ensures Tiling(Split(len, a, n), lo, hi)
    ensures a + n !in len
  {
    assert forall b :: b in len && b > a ==> b >= a + len[a];
    SplitPieces(len, lo, hi, a, n);
    SplitOrder(len, lo, hi, a, n);
  }

  lemma SplitPieces(len: map<int, int>, lo: int, hi: int, a: int, n: int)
    requires Tiling(len, lo, hi) && a in len && 1 <= n < len[a]
    ensures forall b :: b in Split(len, a, n) ==> lo <= b < b + Split(len, a, n)[b] <= hi
    ensures forall b {:trigger Followed(Split(len, a, n), b, hi)} :: b in Split(len, a, n) ==> Followed(Split(len, a, n), b, hi)
  {
    var cut := Split(len, a, n);
    forall b | b in cut
      ensures lo <= b < b + cut[b] <= hi && Followed(cut, b, hi)
    {
      assert Followed(len, if b == a + n then a else b, hi);
    }
  }

  lemma SplitOrder(len: map<int, int>, lo: int, hi: int, a: int, n: int)
    requires Tiling(len, lo, hi) && a in len && 1 <= n < len[a]
    ensures forall b, c :: b in Split(len, a, n) && c in Split(len, a, n) && b < c ==> b + Split(len, a, n)[b] <= c
  {
    var cut := Split(len, a, n);
    forall b, c | b in cut && c in cut && b < c
      ensures b + cut[b] <= c
    {
      if b == a + n {
        assert c in len;
      }
    }
  }

  /** The last piece is cut off. */
  lemma TilingCut(len: map<int, int>, lo: int, hi: int, a: int)
    requires Tiling(len, lo, hi) && a in len && a + len[a] == hi
    ensures Tiling(len - {a}, lo, a)
  {
    var cut := len - {a};
    forall b | b in cut
      ensures b + cut[b] <= a && Followed(cut, b, a)
    {
      assert b < a;
      assert Followed(len, b, hi);
    }
    if lo < a {
      assert lo in len;
    }
  }

  // ----- what the pieces of a heap are -----

  /** `[lo, hi)` is a gap-free sequence of objects of the lengths `len`. */
  ghost predicate Parsed(m: seq<Word>, len: map<int, int>, lo: int, hi: int) {
    && 0 <= lo <= hi <= |m| && Tiling(len, lo, hi)
    && (forall a :: a in len ==> m[a].Head? && m[a].size == len[a])
  }

  // ----- the marked objects of a parsed region, in address order -----

  /** How many marked objects from address `a` on are of size `s`. */
  ghost function LiveCount(live: set<int>, len: map<int, int>, a: int, hi: int, s: int): nat
    decreases hi - a
  {
    if a >= hi || a !in len || len[a] < 1 then 0
    else (if a in live && len[a] == s then 1 else 0) + LiveCount(live, len, a + len[a], hi, s)
  }

  /** The total size of the marked objects from address `a` on. */
  ghost function LiveWords(live: set<int>, len: map<int, int>, a: int, hi: int): nat
    decreases hi - a
  {
    if a >= hi || a !in len || len[a] < 1 then 0
    else (if a in live then len[a] else 0) + LiveWords(live, len, a + len[a], hi)
  }

  /** One more marked object counts once, for its size. */
  lemma {:induction false} LiveAdd(live: set<int>, len: map<int, int>, lo: int, hi: int, a: int, x: int, s: int)
    requires Tiling(len, lo, hi) && x in len && x !in live
    requires a == hi || a in len
    ensures LiveCount(live + {x}, len, a, hi, s)
         == LiveCount(live, len, a, hi, s) + (if a <= x && len[x] == s then 1 else 0)
    ensures LiveWords(live + {x}, len, a, hi) == LiveWords(live, len, a, hi) + (if a <= x then len[x] else 0)
    decreases hi - a
  {
    if a < hi {
      assert Followed(len, a, hi);
      LiveAdd(live, len, lo, hi, a + len[a], x, s);
    }
  }

  /** Only the marked objects from `a` on matter. */
  lemma {:induction false} LiveSame(live: set<int>, live': set<int>, len: map<int, int>, a: int, hi: int, s: int)
    requires forall b :: b in len && a <= b ==> (b in live <==> b in live')
    ensures LiveCount(live, len, a, hi, s) == LiveCount(live', len, a, hi, s)
    ensures LiveWords(live, len, a, hi) == LiveWords(live', len, a, hi)
    decreases hi - a
  {
    if a < hi && a in len && len[a] >= 1 {
      LiveSame(live, live', len, a + len[a], hi, s);
    }
  }

  lemma {:induction false} LiveNone(len: map<int, int>, a: int, hi: int, s: int)
    ensures LiveCount({}, len, a, hi, s) == 0 && LiveWords({}, len, a, hi) == 0
    decreases hi - a
  {
    if a < hi && a in len && len[a] >= 1 {
      LiveNone(len, a + len[a], hi, s);
    }
  }

  /** A marked object is counted. */
  lemma {:induction false} LiveHas(live: set<int>, len: map<int, int>, lo: int, hi: int, a: int, x: int)
    requires Tiling(len, lo, hi) && x in len && x in live
    requires a in len && a <= x
    ensures LiveCount(live, len, a, hi, len[x]) > 0
    decreases hi - a
  {
    if a < x {
      assert Followed(len, a, hi);
      LiveHas(live, len, lo, hi, a + len[a], x);
    }
  }

  // ----- multisets of sizes -----

  /** Total of a multiset of sizes, counting those up to `n`. */
  ghost function Weight(sizes: multiset<int>, n: nat): int {
    if n == 0 then 0 else n * sizes[n] + Weight(sizes, n - 1)
  }

  lemma {:induction false} WeightAdd(sizes: multiset<int>, s: int, n: nat)
    requires 1 <= s
    ensures Weight(sizes + multiset{s}, n) == Weight(sizes, n) + (if s <= n then s else 0)
  {
    if n > 0 {
      WeightAdd(sizes, s, n - 1);
      var more := sizes + multiset{s};
      if s == n {
        assert more[n] == sizes[n] + 1;
        assert n * more[n] == n * sizes[n] + n;
      } else {
        assert more[n] == sizes[n];
      }
    }
  }

  lemma WeightRemove(sizes: multiset<int>, s: int, n: nat)
    requires s in sizes && 1 <= s <= n
    ensures Weight(sizes - multiset{s}, n) == Weight(sizes, n) - s
  {
    WeightAdd(sizes - multiset{s}, s, n);
    assert sizes - multiset{s} + multiset{s} == sizes;
  }

  lemma {:induction false} WeightEmpty(n: nat)
    ensures Weight(multiset{}, n) == 0
  {
    if n > 0 {
      WeightEmpty(n - 1);
    }
  }
}
