/**
 * The page store the insertion engine works on, seen slot by slot: the
 * line-pointer slots of every data page, the (key, locator) pairs the
 * leaves in those slots hold, and the link discipline of leaf chains.
 */
module ArtStore {
  import opened ArtTypes
  import opened ArtUtils
  import opened BufPage

  /** The slots of block b, or none when b holds no data page. */
  function ItemsOf(pages: map<nat, Page>, b: nat): seq<Option<Node>>
  {
    if b in pages && pages[b].DataPage? then pages[b].items else []
  }

  /** NodeAt reads nothing but the slots of the reference's block. */
  lemma NodeAtItems(pages: map<nat, Page>, r: Iptr)
    ensures NodeAt(pages, r) == if 1 <= r.off as int <= |ItemsOf(pages, r.blk)| then ItemsOf(pages, r.blk)[r.off - 1] else None
  {
  }

  /** Two stores whose blocks other than b hold the same slots. */
  ghost predicate SameElsewhere(p0: map<nat, Page>, p1: map<nat, Page>, b: nat)
  {
    forall c :: c != b ==> ItemsOf(p1, c) == ItemsOf(p0, c)
  }

  // ------------------------------------------------------------------
  // The (key, locator) pairs of the store

  type Pair = (seq<byte>, Iptr)

  function LeafPairs(key: seq<byte>, items: seq<Iptr>): multiset<Pair>
  {
    if |items| == 0 then multiset{} else LeafPairs(key, items[..|items| - 1]) + multiset{(key, items[|items| - 1])}
  }

  lemma LeafPairsAppend(key: seq<byte>, items: seq<Iptr>, t: Iptr)
    ensures LeafPairs(key, items + [t]) == LeafPairs(key, items) + multiset{(key, t)}
  {
    assert (items + [t])[..|items|] == items;
  }

  /** A leaf's pairs: its key with each of its locators. */
  function SlotPairs(s: Option<Node>): multiset<Pair>
  {
    if s.Some? && s.value.Leaf? then LeafPairs(s.value.key, s.value.items) else multiset{}
  }

  function ItemsPairs(items: seq<Option<Node>>): multiset<Pair>
  {
    if |items| == 0 then multiset{} else ItemsPairs(items[..|items| - 1]) + SlotPairs(items[|items| - 1])
  }

  lemma ItemsPairsAppend(items: seq<Option<Node>>, s: Option<Node>)
    ensures ItemsPairs(items + [s]) == ItemsPairs(items) + SlotPairs(s)
  {
    assert (items + [s])[..|items|] == items;
  }

  lemma {:induction false} ItemsPairsUpdate(items: seq<Option<Node>>, i: nat, s: Option<Node>)
    requires i < |items|
    ensures ItemsPairs(items[i := s]) + SlotPairs(items[i]) == ItemsPairs(items) + SlotPairs(s)
  {
    var last := |items| - 1;
    if i == last {
      assert items[i := s][..last] == items[..last];
    } else {
      ItemsPairsUpdate(items[..last], i, s);
      assert items[i := s][..last] == items[..last][i := s];
      assert items[..last][i] == items[i] && items[i := s][last] == items[last];
      assert ItemsPairs(items[i := s]) == ItemsPairs(items[..last][i := s]) + SlotPairs(items[last]);
      assert ItemsPairs(items) == ItemsPairs(items[..last]) + SlotPairs(items[last]);
      AddOnBothSides(ItemsPairs(items[..last][i := s]), SlotPairs(items[i]), ItemsPairs(items[..last]), SlotPairs(s), SlotPairs(items[last]));
    }
  }

  lemma AddOnBothSides(a: multiset<Pair>, x: multiset<Pair>, b: multiset<Pair>, y: multiset<Pair>, z: multiset<Pair>)
    requires a + x == b + y
    ensures a + z + x == b + z + y
  {
    forall p | true
      ensures (a + z + x)[p] == (b + z + y)[p]
    {
      assert (a + x)[p] == (b + y)[p];
    }
  }

  lemma AddCommutes(a: multiset<Pair>, x: multiset<Pair>, y: multiset<Pair>)
    ensures a + x + y == a + y + x
  {
  }

  function BlockPairs(pages: map<nat, Page>, b: nat): multiset<Pair>
  {
    ItemsPairs(ItemsOf(pages, b))
  }

  /** The pairs of the leaves in blocks 0 .. n-1. */
  function StorePairs(pages: map<nat, Page>, n: nat): multiset<Pair>
  {
    if n == 0 then multiset{} else StorePairs(pages, n - 1) + BlockPairs(pages, n - 1)
  }

  /** Changing the slots of one block changes the store's pairs by that block's change. */
  lemma {:induction false} StorePairsChange(p0: map<nat, Page>, p1: map<nat, Page>, n: nat, b: nat)
    requires SameElsewhere(p0, p1, b)
    ensures b < n ==> StorePairs(p1, n) + BlockPairs(p0, b) == StorePairs(p0, n) + BlockPairs(p1, b)
    ensures b >= n ==> StorePairs(p1, n) == StorePairs(p0, n)
  {
    if n > 0 {
      StorePairsChange(p0, p1, n - 1, b);
      var s0, s1 := StorePairs(p0, n - 1), StorePairs(p1, n - 1);
      assert StorePairs(p0, n) == s0 + BlockPairs(p0, n - 1);
      assert StorePairs(p1, n) == s1 + BlockPairs(p1, n - 1);
      if n - 1 == b {
        assert s1 == s0;
        AddCommutes(s0, BlockPairs(p1, b), BlockPairs(p0, b));
      } else {
        assert ItemsOf(p1, n - 1) == ItemsOf(p0, n - 1);
        assert BlockPairs(p1, n - 1) == BlockPairs(p0, n - 1);
        if b < n - 1 {
          AddOnBothSides(s1, BlockPairs(p0, b), s0, BlockPairs(p1, b), BlockPairs(p0, n - 1));
        }
      }
    }
  }

  // ------------------------------------------------------------------
  // Leaf chains

  /** A leaf with the given key sits at t. */
  predicate LeafWithKey(pages: map<nat, Page>, t: Iptr, key: seq<byte>)
  {
    NodeAt(pages, t).Some? && NodeAt(pages, t).value.Leaf? && NodeAt(pages, t).value.key == key
  }

  /** Every leaf whose last link is set links to a leaf with its own key. */
  ghost predicate LastLinksOk(pages: map<nat, Page>)
  {
    forall q :: NodeAt(pages, q).Some? && NodeAt(pages, q).value.Leaf? && IptrValid(NodeAt(pages, q).value.last) ==>
      LeafWithKey(pages, NodeAt(pages, q).value.last, NodeAt(pages, q).value.key)
  }

  /** What slot w may newly hold: anything but a leaf whose set last link leads nowhere. */
  predicate LinkedOk(pages: map<nat, Page>, s: Option<Node>)
  {
    s.Some? && s.value.Leaf? && IptrValid(s.value.last) ==> LeafWithKey(pages, s.value.last, s.value.key)
  }

  /**
   * Writing slot w keeps the chain discipline when a leaf there stays a
   * leaf with the same key and a set last link of the new occupant leads
   * to a leaf with its key.
   */
  lemma SlotWriteKeepsLinks(p0: map<nat, Page>, p1: map<nat, Page>, w: Iptr)
    requires LastLinksOk(p0)
    requires forall q :: q != w ==> NodeAt(p1, q) == NodeAt(p0, q)
    requires LinkedOk(p1, NodeAt(p1, w))
    requires NodeAt(p0, w).Some? && NodeAt(p0, w).value.Leaf? ==>
               NodeAt(p1, w).Some? && NodeAt(p1, w).value.Leaf? && NodeAt(p1, w).value.key == NodeAt(p0, w).value.key
    ensures LastLinksOk(p1)
  {
    forall q | NodeAt(p1, q).Some? && NodeAt(p1, q).value.Leaf? && IptrValid(NodeAt(p1, q).value.last)
      ensures LeafWithKey(p1, NodeAt(p1, q).value.last, NodeAt(p1, q).value.key)
    {
      if q != w {
        var l := NodeAt(p0, q).value;
        assert LeafWithKey(p0, l.last, l.key);
        if l.last != w {
          assert NodeAt(p1, l.last) == NodeAt(p0, l.last);
        }
      }
    }
  }
}
