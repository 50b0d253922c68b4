/** Overflow chains threaded through an array of links, as in vm/otable.c:
    several bucket chains ended by 0, and a free list through the links that are
    in no bucket. */
module OverflowChains {

  function After(list: seq<int>, i: nat, end: int): int
    requires i < |list|
  {
    if i + 1 < |list| then list[i + 1] else end
  }

  /** `list` is threaded through `links` from `head` on. */
  ghost predicate Linked(links: seq<int>, head: int, list: seq<int>, end: int) {
    && head == (if list == [] then end else list[0])
    && (forall i :: 0 <= i < |list| ==> 0 <= list[i] < |links| && links[list[i]] == After(list, i, end))
    && (forall i, j :: 0 <= i < j < |list| ==> list[i] != list[j])
  }

  lemma LinkedFrame(links: seq<int>, links': seq<int>, head: int, list: seq<int>, end: int)
    requires Linked(links, head, list, end) && |links'| == |links|
    requires forall i :: i in list && 0 <= i < |links| ==> links'[i] == links[i]
    ensures Linked(links', head, list, end)
  {
    assert forall i :: 0 <= i < |list| ==> list[i] in list;
  }

  lemma LinkedPush(links: seq<int>, head: int, list: seq<int>, end: int, c: int)
    requires Linked(links, head, list, end) && 0 <= c < |links| && c !in list
    ensures Linked(links[c := head], c, [c] + list, end)
  {
    var links', list' := links[c := head], [c] + list;
    forall i | 0 <= i < |list'|
      ensures 0 <= list'[i] < |links'| && links'[list'[i]] == After(list', i, end)
    {
      if i > 0 {
        assert list'[i] == list[i - 1] && list[i - 1] in list;
        assert After(list', i, end) == After(list, i - 1, end);
      }
    }
    forall i, j | 0 <= i < j < |list'|
      ensures list'[i] != list'[j]
    {
      assert list'[j] == list[j - 1] && list[j - 1] in list;
      assert i > 0 ==> list'[i] == list[i - 1];
    }
  }

  lemma LinkedPop(links: seq<int>, head: int, list: seq<int>, end: int)
    requires Linked(links, head, list, end) && list != []
    ensures head == list[0] && 0 <= head < |links| && Linked(links, links[head], list[1..], end)
    ensures head !in list[1..]
  {
    var rest := list[1..];
    assert links[list[0]] == After(list, 0, end);
    forall i | 0 <= i < |rest|
      ensures 0 <= rest[i] < |links| && links[rest[i]] == After(rest, i, end)
    {
      assert rest[i] == list[i + 1];
      assert After(rest, i, end) == After(list, i + 1, end);
    }
  }

  function Without(list: seq<int>, p: nat): (r: seq<int>)
    requires p < |list|
    ensures |r| == |list| - 1
  {
    list[..p] + list[p + 1..]
  }

  lemma WithoutAt(list: seq<int>, p: nat)
    requires p < |list| && forall i, j :: 0 <= i < j < |list| ==> list[i] != list[j]
    ensures forall i :: 0 <= i < |list| - 1 ==> Without(list, p)[i] == if i < p then list[i] else list[i + 1]
    ensures forall i :: i in Without(list, p) <==> i in list && i != list[p]
    ensures forall i, j :: 0 <= i < j < |list| - 1 ==> Without(list, p)[i] != Without(list, p)[j]
  {
    var cut := Without(list, p);
    forall i | i in list && i != list[p]
      ensures i in cut
    {
      var j :| 0 <= j < |list| && list[j] == i;
      assert cut[if j < p then j else j - 1] == i;
    }
  }

  /** The member at position `p` is linked past. */
  lemma LinkedCut(links: seq<int>, head: int, list: seq<int>, end: int, p: nat)
    requires Linked(links, head, list, end) && 0 < p < |list|
    ensures 0 <= list[p] < |links| && 0 <= list[p - 1] < |links|
    ensures Linked(links[list[p - 1] := links[list[p]]], head, Without(list, p), end)
  {
    hide Without;
    var cut, links' := Without(list, p), links[list[p - 1] := links[list[p]]];
    WithoutAt(list, p);
    assert links[list[p]] == After(list, p, end);
    forall i | 0 <= i < |cut|
      ensures 0 <= cut[i] < |links'| && links'[cut[i]] == After(cut, i, end)
    {
      assert links[list[i]] == After(list, i, end);
      assert links[list[i + 1]] == After(list, i + 1, end);
    }
    assert cut[0] == list[0];
  }

  // ----- a family of bucket chains -----

  const NONE: int := -1

  /** Slot `i` is in the chain of bucket `home[i]`, and in no chain if that is NONE. */
  ghost predicate Family(links: seq<int>, heads: seq<int>, lists: seq<seq<int>>, home: seq<int>) {
    && |heads| == |lists| && |home| == |links| && |home| > 0 && home[0] == NONE
    && (forall b :: 0 <= b < |lists| ==> Linked(links, heads[b], lists[b], 0))
    && (forall b :: 0 <= b < |lists| ==> Members(lists[b], home, b))
  }

  ghost predicate Members(list: seq<int>, home: seq<int>, b: int) {
    forall i :: i in list <==> 0 <= i < |home| && home[i] == b
  }

  lemma FamilyAdd(links: seq<int>, heads: seq<int>, lists: seq<seq<int>>, home: seq<int>, i: int, b: int)
    requires Family(links, heads, lists, home) && 0 <= b < |heads| && 0 < i < |links| && home[i] == NONE
    ensures Family(links[i := heads[b]], heads[b := i], lists[b := [i] + lists[b]], home[i := b])
  {
    var links', heads', lists', home' := links[i := heads[b]], heads[b := i], lists[b := [i] + lists[b]], home[i := b];
    forall c | 0 <= c < |lists'|
      ensures Linked(links', heads'[c], lists'[c], 0) && Members(lists'[c], home', c)
    {
      assert Members(lists[c], home, c);
      if c == b {
        LinkedPush(links, heads[b], lists[b], 0, i);
      } else {
        LinkedFrame(links, links', heads[c], lists[c], 0);
      }
    }
  }

  /** A slot is taken out of its chain: the first one ... */
  lemma FamilyCutFirst(links: seq<int>, heads: seq<int>, lists: seq<seq<int>>, home: seq<int>, b: int)
    requires Family(links, heads, lists, home) && 0 <= b < |heads| && lists[b] != []
    ensures var i := lists[b][0];
            && i == heads[b] && 0 < i < |links|
            && Family(links, heads[b := links[i]], lists[b := Without(lists[b], 0)], home[i := NONE])
  {
    hide Linked, Without;
    var list := lists[b];
    var i, cut := list[0], lists[b := Without(list, 0)];
    assert i in list && Members(list, home, b);
    assert Linked(links, heads[b], list, 0);
    LinkedDistinct(links, heads[b], list, 0);
    LinkedFirst(links, heads[b], list, 0);
    WithoutAt(list, 0);
    forall c | 0 <= c < |lists|
      ensures Linked(links, heads[b := links[i]][c], cut[c], 0) && Members(cut[c], home[i := NONE], c)
    {
      assert Linked(links, heads[c], lists[c], 0) && Members(lists[c], home, c);
    }
  }

  lemma LinkedFirst(links: seq<int>, head: int, list: seq<int>, end: int)
    requires Linked(links, head, list, end) && list != []
    ensures head == list[0] && 0 <= head < |links| && Linked(links, links[head], Without(list, 0), end)
  {
    LinkedPop(links, head, list, end);
    assert Without(list, 0) == list[1..];
  }

  /** ... or a later one. */
  lemma FamilyCut(links: seq<int>, heads: seq<int>, lists: seq<seq<int>>, home: seq<int>, b: int, p: nat)
    requires Family(links, heads, lists, home) && 0 <= b < |heads| && 0 < p < |lists[b]|
    ensures var i, prev := lists[b][p], lists[b][p - 1];
            && 0 < i < |links| && 0 < prev < |links|
            && Family(links[prev := links[i]], heads, lists[b := Without(lists[b], p)], home[i := NONE])
  {
    hide Linked, Without;
    var list := lists[b];
    var i, prev, cut := list[p], list[p - 1], lists[b := Without(list, p)];
    assert i in list && prev in list && Members(list, home, b);
    assert Linked(links, heads[b], lists[b], 0);
    LinkedDistinct(links, heads[b], list, 0);
    LinkedCut(links, heads[b], list, 0, p);
    WithoutAt(list, p);
    forall c | 0 <= c < |lists|
      ensures Linked(links[prev := links[i]], heads[c], cut[c], 0)
    {
      if c != b {
        assert Linked(links, heads[c], lists[c], 0) && Members(lists[c], home, c);
        LinkedFrame(links, links[prev := links[i]], heads[c], lists[c], 0);
      }
    }
    forall c | 0 <= c < |lists|
      ensures Members(cut[c], home[i := NONE], c)
    {
      assert Members(lists[c], home, c);
    }
  }

  lemma LinkedDistinct(links: seq<int>, head: int, list: seq<int>, end: int)
    requires Linked(links, head, list, end)
    ensures forall i, j :: 0 <= i < j < |list| ==> list[i] != list[j]
  {
  }

  /** The link of a slot in no chain may be used otherwise. */
  lemma FamilyFrame(links: seq<int>, heads: seq<int>, lists: seq<seq<int>>, home: seq<int>, i: int, v: int)
    requires Family(links, heads, lists, home) && 0 <= i < |links| && home[i] == NONE
    ensures Family(links[i := v], heads, lists, home)
  {
    forall b | 0 <= b < |lists|
      ensures Linked(links[i := v], heads[b], lists[b], 0)
    {
      assert Members(lists[b], home, b);
      LinkedFrame(links, links[i := v], heads[b], lists[b], 0);
    }
  }

  /** A slot may be emptied in place: no chain goes through it any more. */
  lemma FamilyMember(links: seq<int>, heads: seq<int>, lists: seq<seq<int>>, home: seq<int>, b: int, p: nat)
    requires Family(links, heads, lists, home) && 0 <= b < |heads| && p < |lists[b]|
    ensures 0 < lists[b][p] < |links| && home[lists[b][p]] == b
    ensures links[lists[b][p]] == After(lists[b], p, 0)
  {
    assert lists[b][p] in lists[b] && Members(lists[b], home, b);
  }

  /** The free list: the slots from 1 on that are in no bucket. */
  ghost predicate Spare(links: seq<int>, free: int, list: seq<int>, home: seq<int>) {
    && |home| == |links| && Linked(links, free, list, |links|)
    && (forall i :: i in list <==> 1 <= i < |home| && home[i] == NONE)
  }

  lemma SparePop(links: seq<int>, free: int, list: seq<int>, home: seq<int>, b: int, v: int)
    requires Spare(links, free, list, home) && list != [] && b != NONE
    ensures 1 <= free < |links| && home[free] == NONE
    ensures Spare(links[free := v], links[free], list[1..], home[free := b])
  {
    hide Linked;
    LinkedPop(links, free, list, |links|);
    var links', rest := links[free := v], list[1..];
    assert list == [free] + rest;
    assert free in list;
    LinkedFrame(links, links', links[free], rest, |links|);
    forall i
      ensures i in rest <==> 1 <= i < |home| && home[free := b][i] == NONE
    {
      assert i in list <==> i == free || i in rest;
    }
  }

  lemma SparePush(links: seq<int>, free: int, list: seq<int>, home: seq<int>, i: int)
    requires Spare(links, free, list, home) && 1 <= i < |links| && home[i] != NONE
    ensures Spare(links[i := free], i, [i] + list, home[i := NONE])
  {
    LinkedPush(links, free, list, |links|, i);
  }

  /** Links of slots in buckets are not links of the free list. */
  lemma SpareFrame(links: seq<int>, free: int, list: seq<int>, home: seq<int>, i: int, v: int)
    requires Spare(links, free, list, home) && 0 <= i < |links| && i !in list
    ensures Spare(links[i := v], free, list, home)
  {
    LinkedFrame(links, links[i := v], free, list, |links|);
  }
}
