/**
 * The insertion engine of the index build (art_insert.c), on the page
 * store the build keeps in memory: the data pages by block number, the
 * set of pages marked dirty, the counter of allocated blocks, the two
 * tail blocks of the build metadata and the tuple counter.
 *
 * Every step that writes the store is a method of ArtState; each states
 * the new store exactly, the slots it leaves alone, and how the
 * (key, locator) pairs of the store's leaves change.
 */
module ArtInsert {
  import opened ArtTypes
  import opened ArtUtils
  import opened BufPage
  import opened ArtNodes
  import opened ArtPageOps
  import opened ArtStore
  import opened ArtKey

  /** What an insertion step comes to: done, or stopped before writing anything. */
  datatype Outcome = Done | Stuck

  /** The longest key whose one-locator leaf fits an empty data page. */
  const MAX_LEAF_KEY_LEN: nat := 8114

  lemma MaxLeafKeyTight()
    ensures SizeOfItemIdData + MaxAlign(SIZEOF_LEAF + MAX_LEAF_KEY_LEN + SIZEOF_ITEM_POINTER) <= EmptyGap
    ensures SizeOfItemIdData + MaxAlign(SIZEOF_LEAF + MAX_LEAF_KEY_LEN + 1 + SIZEOF_ITEM_POINTER) > EmptyGap
  {
  }

  // ------------------------------------------------------------------
  // Slots and the store invariant

  /** Slot i of a slot sequence, None past its end. */
  function SlotOf(items: seq<Option<Node>>, i: int): Option<Node>
  {
    if 0 <= i < |items| then items[i] else None
  }

  lemma NodeAtSlot(pages: map<nat, Page>, r: Iptr)
    ensures NodeAt(pages, r) == SlotOf(ItemsOf(pages, r.blk), r.off as int - 1)
  {
  }

  /** The slot sequences a and b agree everywhere except at index k. */
  ghost predicate OnlySlotChanged(a: seq<Option<Node>>, b: seq<Option<Node>>, k: int)
  {
    forall i :: i != k ==> SlotOf(b, i) == SlotOf(a, i)
  }

  /** The root is a Node256 without a prefix, as the build creates it. */
  predicate RootOk(pages: map<nat, Page>)
  {
    var s := NodeAt(pages, RootIptr);
    s.Some? && s.value.Node256? && s.value.hdr.prefixLen == 0
  }

  /**
   * What every step keeps true of the store: each page is an accounted
   * data page below the allocation counter, both tails are pages of the
   * store, every stored node is well formed, every set last-leaf link
   * leads to a leaf with its key, and the root is a prefix-free Node256.
   */
  ghost predicate StoreInv(pages: map<nat, Page>, numAllocated: nat, meta: MetaOpaque)
  {
    (forall b :: b in pages ==> Accounted(pages[b]) && b < numAllocated) &&
    meta.lastInternal in pages && meta.lastLeaf in pages &&
    StoreWellFormed(pages) && LastLinksOk(pages) && RootOk(pages)
  }

  /** The slot-level effect of replacing page b by p, where p differs at most in the slot of w. */
  lemma PutPage(p0: map<nat, Page>, b: nat, p: Page, w: Iptr)
    requires w.blk == b && p.DataPage?
    requires OnlySlotChanged(ItemsOf(p0, b), p.items, w.off as int - 1)
    ensures forall q :: q != w ==> NodeAt(p0[b := p], q) == NodeAt(p0, q)
    ensures NodeAt(p0[b := p], w) == SlotOf(p.items, w.off as int - 1)
    ensures SameElsewhere(p0, p0[b := p], b)
  {
    var p1 := p0[b := p];
    forall q | q != w
      ensures NodeAt(p1, q) == NodeAt(p0, q)
    {
      NodeAtSlot(p1, q);
      NodeAtSlot(p0, q);
    }
    NodeAtSlot(p1, w);
  }

  /**
   * Replacing page b (already in the store) by an accounted page that
   * differs at most in the slot of w keeps the invariant when the new
   * occupant of that slot is well formed, its set last link leads to a
   * leaf with its key, a leaf there keeps its key, and the root stays a
   * prefix-free Node256.
   */
  lemma PutPageInv(p0: map<nat, Page>, n: nat, meta: MetaOpaque, b: nat, p: Page, w: Iptr)
    requires StoreInv(p0, n, meta) && b in p0 && Accounted(p) && w.blk == b
    requires OnlySlotChanged(ItemsOf(p0, b), p.items, w.off as int - 1)
    requires var s := SlotOf(p.items, w.off as int - 1);
             (s.Some? ==> WellFormed(s.value)) && LinkedOk(p0[b := p], s) &&
             (NodeAt(p0, w).Some? && NodeAt(p0, w).value.Leaf? ==> s.Some? && s.value.Leaf? && s.value.key == NodeAt(p0, w).value.key) &&
             (w == RootIptr ==> s.Some? && s.value.Node256? && s.value.hdr.prefixLen == 0)
    ensures StoreInv(p0[b := p], n, meta)
    ensures forall q :: q != w ==> NodeAt(p0[b := p], q) == NodeAt(p0, q)
    ensures NodeAt(p0[b := p], w) == SlotOf(p.items, w.off as int - 1)
    ensures SameElsewhere(p0, p0[b := p], b)
  {
    var p1 := p0[b := p];
    PutPage(p0, b, p, w);
    forall c, i | c in p1 && p1[c].DataPage? && 0 <= i < |p1[c].items| && p1[c].items[i].Some?
      ensures WellFormed(p1[c].items[i].value)
    {
      if c == b && i != w.off as int - 1 {
        assert SlotOf(p.items, i) == SlotOf(ItemsOf(p0, b), i);
      }
    }
    SlotWriteKeepsLinks(p0, p1, w);
  }

  /** Stores that agree on every slot agree on the chain discipline. */
  lemma LinksByNodes(p0: map<nat, Page>, p1: map<nat, Page>)
    requires LastLinksOk(p0)
    requires forall q :: NodeAt(p1, q) == NodeAt(p0, q)
    ensures LastLinksOk(p1)
  {
  }

  /** Stores of accounted pages that agree on every slot agree on well-formedness. */
  lemma WellFormedByNodes(p0: map<nat, Page>, p1: map<nat, Page>)
    requires StoreWellFormed(p0)
    requires forall b :: b in p1 ==> Accounted(p1[b])
    requires forall q :: NodeAt(p1, q) == NodeAt(p0, q)
    ensures StoreWellFormed(p1)
  {
    forall b, i | b in p1 && p1[b].DataPage? && 0 <= i < |p1[b].items| && p1[b].items[i].Some?
      ensures WellFormed(p1[b].items[i].value)
    {
      SlotBound(p1[b]);
      var q := Iptr(b, (i + 1) as u16);
      assert NodeAt(p1, q) == p1[b].items[i];
      NodeAtWellFormed(p0, q);
    }
  }

  /** The pairs of the store change by the change of one block's pairs. */
  lemma StoreDelta(p0: map<nat, Page>, p1: map<nat, Page>, n: nat, b: nat, x: multiset<Pair>, y: multiset<Pair>)
    requires SameElsewhere(p0, p1, b) && b < n
    requires BlockPairs(p1, b) + x == BlockPairs(p0, b) + y
    ensures StorePairs(p1, n) + x == StorePairs(p0, n) + y
  {
    StorePairsChange(p0, p1, n, b);
    forall pr | true
      ensures (StorePairs(p1, n) + x)[pr] == (StorePairs(p0, n) + y)[pr]
    {
      assert (StorePairs(p1, n) + BlockPairs(p0, b))[pr] == (StorePairs(p0, n) + BlockPairs(p1, b))[pr];
      assert (BlockPairs(p1, b) + x)[pr] == (BlockPairs(p0, b) + y)[pr];
    }
  }

  /** A slot of an accounted page takes no more than an empty page's gap. */
  lemma {:induction false} UsedCovers(items: seq<Option<Node>>, i: nat)
    requires i < |items|
    ensures ItemSpace(items[i]) <= Used(items)
  {
    if i < |items| - 1 {
      UsedCovers(items[..|items| - 1], i);
    }
  }

  lemma SlotFits(pages: map<nat, Page>, r: Iptr)
    requires r.blk in pages && Accounted(pages[r.blk]) && NodeAt(pages, r).Some?
    ensures SizeOfItemIdData + MaxAlign(NodeSize(NodeAt(pages, r).value)) <= EmptyGap
  {
    UsedCovers(pages[r.blk].items, r.off as nat - 1);
  }

  // ------------------------------------------------------------------
  // Page trailers and tails

  /** The tail block a page kind is placed on. */
  function TailOf(m: MetaOpaque, pageType: byte): nat
  {
    if pageType == ART_NODE_PAGE then m.lastInternal else m.lastLeaf
  }

  function SetTail(m: MetaOpaque, pageType: byte, blk: nat): (r: MetaOpaque)
    ensures TailOf(r, pageType) == blk && r.pageCache == m.pageCache
    ensures pageType == ART_NODE_PAGE ==> r.lastLeaf == m.lastLeaf
    ensures pageType != ART_NODE_PAGE ==> r.lastInternal == m.lastInternal
  {
    if pageType == ART_NODE_PAGE then m.(lastInternal := blk) else m.(lastLeaf := blk)
  }

  /** The flags a new page of a kind gets: node pages, and leaf pages for every other kind. */
  function PageFlags(pageType: byte): byte
  {
    if pageType == ART_NODE_PAGE then ART_NODE_PAGE else ART_LEAF_PAGE
  }

  function WithRightLink(p: Page, blk: nat): (r: Page)
    requires p.DataPage?
    ensures r.DataPage? && r.items == p.items && r.gap == p.gap && r.special.rightLink == blk
  {
    p.(special := p.special.(rightLink := blk))
  }

  /** One more tuple added: the uint16 n_total counter. */
  function Counted(p: Page): (r: Page)
    requires p.DataPage?
    ensures r.DataPage? && r.items == p.items && r.gap == p.gap
  {
    p.(special := p.special.(nTotal := (p.special.nTotal + 1) % 0x1_0000))
  }

  /** One tuple of size sz deleted: the uint16 n_deleted and deleted_item_size counters. */
  function CountedDelete(p: Page, sz: nat): (r: Page)
    requires p.DataPage?
    ensures r.DataPage? && r.items == p.items && r.gap == p.gap
  {
    p.(special := p.special.(nDeleted := (p.special.nDeleted + 1) % 0x1_0000,
                             deletedItemSize := (p.special.deletedItemSize + sz) % 0x1_0000))
  }

  /**
   * The free-space test on a tail page: its PageGetFreeSpace, for leaf
   * pages scaled by the insert threshold thrNum/thrDen and truncated as
   * the conversion back to Size truncates, must exceed the aligned size.
   */
  predicate TailHasRoom(p: Page, pageType: byte, itemSize: nat, thrNum: nat, thrDen: nat)
    requires p.DataPage? && 0 < thrDen
  {
    var free := FreeSpace(p);
    (if pageType == ART_LEAF_PAGE then free * thrNum / thrDen else free) > MaxAlign(itemSize)
  }

  lemma ScaledBelow(free: nat, thrNum: nat, thrDen: nat)
    requires 0 < thrDen && thrNum <= thrDen
    ensures free * thrNum / thrDen <= free
  {
    var q := free * thrNum / thrDen;
    assert q * thrDen <= free * thrNum;
    assert free * thrNum <= free * thrDen;
    if q > free {
      MulMono(free + 1, q, thrDen);
      assert false;
    }
  }

  lemma MulMono(a: nat, b: nat, c: nat)
    requires a <= b
    ensures a * c <= b * c
  {
  }

  /** A tail page that passes the test has room for the item and its line pointer. */
  lemma TailRoom(p: Page, pageType: byte, itemSize: nat, thrNum: nat, thrDen: nat)
    requires Accounted(p) && 0 < thrDen && thrNum <= thrDen
    requires TailHasRoom(p, pageType, itemSize, thrNum, thrDen)
    ensures SizeOfItemIdData + MaxAlign(itemSize) <= p.gap
  {
    ScaledBelow(FreeSpace(p), thrNum, thrDen);
  }

  // ------------------------------------------------------------------
  // Leaves

  /** The leaf `_add_leaf` builds: zeroed links, the key and one locator. */
  function NewLeaf(key: seq<byte>, tid: Iptr): (l: Node)
    ensures l.Leaf? && l.key == key && l.items == [tid] && !IptrValid(l.last) && !IptrValid(l.next)
  {
    Leaf(ZeroIptr, ZeroIptr, ZeroIptr, key, [tid])
  }

  /** The leaf the in-place branch of `_update_leaf_item` writes: invalid links, one more locator. */
  function AppendItem(l: Node, tid: Iptr): (r: Node)
    requires l.Leaf?
    ensures r.Leaf? && r.key == l.key && r.items == l.items + [tid] && !IptrValid(r.last) && !IptrValid(r.next)
  {
    Leaf(ZeroIptr, InvalidIptr, InvalidIptr, l.key, l.items + [tid])
  }

  lemma NewLeafPairs(key: seq<byte>, tid: Iptr)
    ensures SlotPairs(Some(NewLeaf(key, tid))) == multiset{(key, tid)}
  {
    assert [tid] == [] + [tid];
    LeafPairsAppend(key, [], tid);
  }

  lemma AppendItemSize(l: Node, tid: Iptr)
    requires l.Leaf?
    ensures NodeSize(AppendItem(l, tid)) == NodeSize(l) + SIZEOF_ITEM_POINTER
    ensures MaxAlign(NodeSize(AppendItem(l, tid))) <= MaxAlign(NodeSize(l)) + 8
  {
  }

  /**
   * The effect of `_update_leaf_item` on the slots: the tail t of the
   * chain headed at head (head itself, or head's last link) either takes
   * the locator in place, or a new leaf nl holding it is linked after t
   * and becomes head's last leaf.
   */
  ghost predicate LeafUpdated(p0: map<nat, Page>, p1: map<nat, Page>, head: Iptr, tid: Iptr, chained: Option<Iptr>)
    requires NodeAt(p0, head).Some? && NodeAt(p0, head).value.Leaf?
  {
    var h := NodeAt(p0, head).value;
    var t := if IptrValid(h.last) then h.last else head;
    NodeAt(p0, t).Some? && NodeAt(p0, t).value.Leaf? &&
    var tl := NodeAt(p0, t).value;
    match chained
    case None =>
      NodeAt(p1, t) == Some(AppendItem(tl, tid)) &&
      forall q :: q != t ==> NodeAt(p1, q) == NodeAt(p0, q)
    case Some(nl) =>
      NodeAt(p0, nl).None? && nl != head && nl != t &&
      NodeAt(p1, nl) == Some(NewLeaf(h.key, tid)) &&
      (t == head ==> NodeAt(p1, head) == Some(h.(next := nl, last := nl))) &&
      (t != head ==> NodeAt(p1, t) == Some(tl.(next := nl)) && NodeAt(p1, head) == Some(h.(last := nl))) &&
      forall q :: q != t && q != head && q != nl ==> NodeAt(p1, q) == NodeAt(p0, q)
  }

  /**
   * The leaf `_update_leaf_item` appends to for the chain headed at head:
   * head when its last link is unset, else the leaf that link names when
   * that leaf's own last link is unset; None otherwise (a second hop,
   * which this model does not follow).
   */
  function ChainTail(pages: map<nat, Page>, head: Iptr): Option<Iptr>
    requires NodeAt(pages, head).Some? && NodeAt(pages, head).value.Leaf?
  {
    var h := NodeAt(pages, head).value;
    if !IptrValid(h.last) then Some(head)
    else if NodeAt(pages, h.last).Some? && NodeAt(pages, h.last).value.Leaf? && !IptrValid(NodeAt(pages, h.last).value.last)
    then Some(h.last)
    else None
  }

  /** Every locator in rs names a leaf. */
  ghost predicate AllLeaves(pages: map<nat, Page>, rs: seq<Iptr>)
  {
    forall i :: 0 <= i < |rs| ==> NodeAt(pages, rs[i]).Some? && NodeAt(pages, rs[i]).value.Leaf?
  }

  /**
   * rs is the leaf chain headed at head: distinct leaves linked by their
   * next links, the last one without a next link; head's last link names
   * the last leaf when there are several and is unset otherwise, and a
   * last leaf other than head has no last link of its own.
   */
  ghost predicate IsChain(pages: map<nat, Page>, head: Iptr, rs: seq<Iptr>)
  {
    |rs| >= 1 && rs[0] == head && AllLeaves(pages, rs) &&
    (forall i :: 0 <= i < |rs| - 1 ==> NodeAt(pages, rs[i]).value.next == rs[i + 1]) &&
    (forall i, j :: 0 <= i < j < |rs| ==> rs[i] != rs[j]) &&
    var tail := NodeAt(pages, rs[|rs| - 1]).value;
    !IptrValid(tail.next) &&
    (if |rs| == 1 then !IptrValid(tail.last)
     else NodeAt(pages, head).value.last == rs[|rs| - 1] && !IptrValid(tail.last))
  }

  /** The locators of a chain's leaves, in chain order. */
  ghost function ChainItems(pages: map<nat, Page>, rs: seq<Iptr>): seq<Iptr>
    requires AllLeaves(pages, rs)
  {
    if |rs| == 0 then [] else ChainItems(pages, rs[..|rs| - 1]) + NodeAt(pages, rs[|rs| - 1]).value.items
  }

  lemma {:induction false} ChainItemsSame(p0: map<nat, Page>, p1: map<nat, Page>, rs: seq<Iptr>)
    requires AllLeaves(p0, rs) && AllLeaves(p1, rs)
    requires forall i :: 0 <= i < |rs| ==> NodeAt(p1, rs[i]).value.items == NodeAt(p0, rs[i]).value.items
    ensures ChainItems(p1, rs) == ChainItems(p0, rs)
  {
    if |rs| > 0 {
      ChainItemsSame(p0, p1, rs[..|rs| - 1]);
    }
  }

  /** A chain's tail is where `_update_leaf_item` appends. */
  lemma ChainTailIsLast(pages: map<nat, Page>, head: Iptr, rs: seq<Iptr>)
    requires IsChain(pages, head, rs)
    ensures ChainTail(pages, head) == Some(rs[|rs| - 1])
  {
  }

  /**
   * A leaf chain keeps all its earlier locators and gets the new one
   * last: in place at its tail, or in a new last leaf linked after it.
   */
  lemma ChainAppend(p0: map<nat, Page>, p1: map<nat, Page>, head: Iptr, rs: seq<Iptr>, tid: Iptr, chained: Option<Iptr>)
    requires IsChain(p0, head, rs) && LeafUpdated(p0, p1, head, tid, chained)
    ensures var rs' := if chained.None? then rs else rs + [chained.value];
      IsChain(p1, head, rs') && ChainItems(p1, rs') == ChainItems(p0, rs) + [tid]
  {
    ChainTailIsLast(p0, head, rs);
    if chained.None? {
      ChainAppendInPlace(p0, p1, head, rs, tid);
    } else {
      ChainAppendLinked(p0, p1, head, rs, tid, chained.value);
    }
  }

  /** The in-place case: the tail leaf's locators grow by tid. */
  lemma ChainAppendInPlace(p0: map<nat, Page>, p1: map<nat, Page>, head: Iptr, rs: seq<Iptr>, tid: Iptr)
    requires IsChain(p0, head, rs) && LeafUpdated(p0, p1, head, tid, None)
    requires ChainTail(p0, head) == Some(rs[|rs| - 1])
    ensures IsChain(p1, head, rs) && ChainItems(p1, rs) == ChainItems(p0, rs) + [tid]
  {
    InPlaceTail(p0, p1, head, rs, tid);
    AppendAtTail(p0, p1, head, rs, tid);
  }

  /** Rewriting only the chain's last leaf with tid appended keeps the chain and extends its items. */
  lemma AppendAtTail(p0: map<nat, Page>, p1: map<nat, Page>, head: Iptr, rs: seq<Iptr>, tid: Iptr)
    requires IsChain(p0, head, rs)
    requires var t := rs[|rs| - 1];
      && NodeAt(p1, t) == Some(AppendItem(NodeAt(p0, t).value, tid))
      && forall q :: q != t ==> NodeAt(p1, q) == NodeAt(p0, q)
    ensures IsChain(p1, head, rs) && ChainItems(p1, rs) == ChainItems(p0, rs) + [tid]
  {
    var last := |rs| - 1;
    var t := rs[last];
    assert rs[..last] + [t] == rs;
    assert forall i :: 0 <= i < last ==> rs[i] != t;
    assert forall i :: 0 <= i < last ==> NodeAt(p1, rs[i]) == NodeAt(p0, rs[i]);
    assert AllLeaves(p1, rs);
    ChainItemsSame(p0, p1, rs[..last]);
    assert ChainItems(p1, rs) == ChainItems(p1, rs[..last]) + NodeAt(p1, t).value.items;
  }

  /**
   * The three writes of the chaining branch (add the new leaf nl, give
   * the tail its next link, give head its last link) make the linked
   * case of LeafUpdated.
   */
  lemma ChainedShape(p0: map<nat, Page>, p1: map<nat, Page>, p2: map<nat, Page>, p3: map<nat, Page>,
                     head: Iptr, t: Iptr, tid: Iptr, nl: Iptr)
    requires NodeAt(p0, head).Some? && NodeAt(p0, head).value.Leaf?
    requires var h := NodeAt(p0, head).value;
      && t == (if IptrValid(h.last) then h.last else head)
      && NodeAt(p0, t).Some? && NodeAt(p0, t).value.Leaf?
      && NodeAt(p0, nl).None? && NodeAt(p1, nl) == Some(NewLeaf(h.key, tid))
    requires forall q :: q != nl ==> NodeAt(p1, q) == NodeAt(p0, q)
    requires NodeAt(p2, t) == Some(NodeAt(p0, t).value.(next := nl))
    requires forall q :: q != t ==> NodeAt(p2, q) == NodeAt(p1, q)
    requires NodeAt(p2, head).Some? && NodeAt(p2, head).value.Leaf?
    requires NodeAt(p3, head) == Some(NodeAt(p2, head).value.(last := nl))
    requires forall q :: q != head ==> NodeAt(p3, q) == NodeAt(p2, q)
    ensures LeafUpdated(p0, p3, head, tid, Some(nl))
  {
    assert nl != head && nl != t;
  }

  /** In the in-place case the leaf rewritten is the chain's last one. */
  lemma InPlaceTail(p0: map<nat, Page>, p1: map<nat, Page>, head: Iptr, rs: seq<Iptr>, tid: Iptr)
    requires IsChain(p0, head, rs) && LeafUpdated(p0, p1, head, tid, None)
    requires ChainTail(p0, head) == Some(rs[|rs| - 1])
    ensures var t := rs[|rs| - 1];
      && NodeAt(p0, t).Some? && NodeAt(p0, t).value.Leaf?
      && NodeAt(p1, t) == Some(AppendItem(NodeAt(p0, t).value, tid))
      && forall q :: q != t ==> NodeAt(p1, q) == NodeAt(p0, q)
  {
  }

  /** The linked case: a new leaf holding tid joins the chain after its tail. */
  lemma ChainAppendLinked(p0: map<nat, Page>, p1: map<nat, Page>, head: Iptr, rs: seq<Iptr>, tid: Iptr, nl: Iptr)
    requires IsChain(p0, head, rs) && LeafUpdated(p0, p1, head, tid, Some(nl))
    requires ChainTail(p0, head) == Some(rs[|rs| - 1])
    ensures IsChain(p1, head, rs + [nl]) && ChainItems(p1, rs + [nl]) == ChainItems(p0, rs) + [tid]
  {
    LinkedTail(p0, p1, head, rs, tid, nl);
    LinkAtTail(p0, p1, head, rs, tid, nl);
  }

  /** In the linked case the leaf given the next link is the chain's last one. */
  lemma LinkedTail(p0: map<nat, Page>, p1: map<nat, Page>, head: Iptr, rs: seq<Iptr>, tid: Iptr, nl: Iptr)
    requires IsChain(p0, head, rs) && LeafUpdated(p0, p1, head, tid, Some(nl))
    requires ChainTail(p0, head) == Some(rs[|rs| - 1])
    ensures var t := rs[|rs| - 1];
      var h := NodeAt(p0, head).value;
      && NodeAt(p0, nl).None? && nl != head && nl != t
      && NodeAt(p1, nl) == Some(NewLeaf(h.key, tid))
      && (t == head ==> NodeAt(p1, head) == Some(h.(next := nl, last := nl)))
      && (t != head ==> NodeAt(p1, t) == Some(NodeAt(p0, t).value.(next := nl)) && NodeAt(p1, head) == Some(h.(last := nl)))
      && forall q :: q != t && q != head && q != nl ==> NodeAt(p1, q) == NodeAt(p0, q)
  {
  }

  /** Linking a new leaf holding tid after the chain's last leaf extends the chain and its items. */
  lemma LinkAtTail(p0: map<nat, Page>, p1: map<nat, Page>, head: Iptr, rs: seq<Iptr>, tid: Iptr, nl: Iptr)
    requires IsChain(p0, head, rs)
    requires var t := rs[|rs| - 1];
      var h := NodeAt(p0, head).value;
      && NodeAt(p0, nl).None? && nl != head && nl != t
      && NodeAt(p1, nl) == Some(NewLeaf(h.key, tid))
      && (t == head ==> NodeAt(p1, head) == Some(h.(next := nl, last := nl)))
      && (t != head ==> NodeAt(p1, t) == Some(NodeAt(p0, t).value.(next := nl)) && NodeAt(p1, head) == Some(h.(last := nl)))
      && forall q :: q != t && q != head && q != nl ==> NodeAt(p1, q) == NodeAt(p0, q)
    ensures IsChain(p1, head, rs + [nl]) && ChainItems(p1, rs + [nl]) == ChainItems(p0, rs) + [tid]
  {
    var rs' := rs + [nl];
    assert nl !in rs;
    assert forall i :: 0 <= i < |rs| ==> NodeAt(p1, rs[i]).Some? && NodeAt(p1, rs[i]).value.Leaf? &&
                                          NodeAt(p1, rs[i]).value.items == NodeAt(p0, rs[i]).value.items;
    assert AllLeaves(p1, rs) && AllLeaves(p1, rs');
    ChainItemsSame(p0, p1, rs);
    assert rs'[..|rs|] == rs;
    assert ChainItems(p1, rs') == ChainItems(p1, rs) + [tid];
  }

  // ------------------------------------------------------------------
  // The store-level effect of each page write

  /** The store after a new tail page blk of a kind is linked from the old tail. */
  function NewTailPages(pages: map<nat, Page>, tail: nat, blk: nat, pageType: byte): map<nat, Page>
    requires tail in pages && pages[tail].DataPage?
  {
    pages[tail := WithRightLink(pages[tail], blk)][blk := InitDataPage(PageFlags(pageType))]
  }

  lemma NewTailEffect(p0: map<nat, Page>, n: nat, meta: MetaOpaque, pageType: byte)
    requires StoreInv(p0, n, meta)
    ensures var tail := TailOf(meta, pageType);
      var p1 := NewTailPages(p0, tail, n, pageType);
      && n !in p0
      && StoreInv(p1, n + 1, SetTail(meta, pageType, n))
      && (forall q :: NodeAt(p1, q) == NodeAt(p0, q))
      && StorePairs(p1, n + 1) == StorePairs(p0, n)
  {
    var tail := TailOf(meta, pageType);
    var p1 := NewTailPages(p0, tail, n, pageType);
    assert n !in p0;
    NewTailSlots(p0, n, tail, pageType);
    SameItems(p0, p1, n);
    var m1 := SetTail(meta, pageType, n);
    assert m1.lastInternal in p1 && m1.lastLeaf in p1;
    assert StorePairs(p1, n + 1) == StorePairs(p1, n) + BlockPairs(p1, n);
  }

  /** The new tail page is empty and accounted, and the old tail keeps its slots. */
  lemma NewTailSlots(p0: map<nat, Page>, n: nat, tail: nat, pageType: byte)
    requires forall b :: b in p0 ==> Accounted(p0[b]) && b < n
    requires tail in p0 && p0[tail].DataPage?
    ensures var p1 := NewTailPages(p0, tail, n, pageType);
      && (forall c :: ItemsOf(p1, c) == ItemsOf(p0, c))
      && (forall b :: b in p1 ==> Accounted(p1[b]) && b < n + 1)
      && BlockPairs(p1, n) == multiset{}
  {
  }

  /** Adding n to block blk by PageAddItem and counting it. */
  lemma AddNodeEffect(p0: map<nat, Page>, nA: nat, meta: MetaOpaque, blk: nat, n: Node)
    requires StoreInv(p0, nA, meta) && blk in p0 && WellFormed(n)
    requires n.Leaf? ==> !IptrValid(n.last)
    ensures var added := AddItem(p0[blk], n);
      var p1 := p0[blk := Counted(added.0)];
      var r := Iptr(blk, added.1);
      && StoreInv(p1, nA, meta)
      && (IptrValid(r) ==> NodeAt(p0, r).None? && NodeAt(p1, r) == Some(n))
      && (forall q :: q != r ==> NodeAt(p1, q) == NodeAt(p0, q))
      && StorePairs(p1, nA) == StorePairs(p0, nA) + (if IptrValid(r) then SlotPairs(Some(n)) else multiset{})
  {
    var added := AddItem(p0[blk], n);
    var p := Counted(added.0);
    var p1 := p0[blk := p];
    var r := Iptr(blk, added.1);
    var items := p0[blk].items;
    if added.1 != 0 {
      assert p.items == items + [Some(n)];
      forall i | i != r.off as int - 1
        ensures SlotOf(p.items, i) == SlotOf(ItemsOf(p0, blk), i)
      {
      }
      PutPageInv(p0, nA, meta, blk, p, r);
      NodeAtSlot(p0, r);
      ItemsPairsAppend(items, Some(n));
      StoreDelta(p0, p1, nA, blk, multiset{}, SlotPairs(Some(n)));
    } else {
      SameSlots(p0, nA, meta, blk, p);
    }
  }

  /** Replacing page b by an accounted page with the same slots changes nothing a node reader sees. */
  lemma SameSlots(p0: map<nat, Page>, nA: nat, meta: MetaOpaque, b: nat, p: Page)
    requires StoreInv(p0, nA, meta) && b in p0 && Accounted(p) && p.items == p0[b].items
    ensures StoreInv(p0[b := p], nA, meta)
    ensures forall q :: NodeAt(p0[b := p], q) == NodeAt(p0, q)
    ensures StorePairs(p0[b := p], nA) == StorePairs(p0, nA)
  {
    var p1 := p0[b := p];
    assert forall c :: ItemsOf(p1, c) == ItemsOf(p0, c);
    SameItems(p0, p1, nA);
  }

  /** Stores with the same slots in every block agree on every slot, the invariant and the pairs. */
  lemma SameItems(p0: map<nat, Page>, p1: map<nat, Page>, n: nat)
    requires forall c :: ItemsOf(p1, c) == ItemsOf(p0, c)
    requires StoreWellFormed(p0) && LastLinksOk(p0)
    requires forall b :: b in p1 ==> Accounted(p1[b])
    ensures forall q :: NodeAt(p1, q) == NodeAt(p0, q)
    ensures StoreWellFormed(p1) && LastLinksOk(p1) && RootOk(p1) == RootOk(p0)
    ensures StorePairs(p1, n) == StorePairs(p0, n)
  {
    forall q
      ensures NodeAt(p1, q) == NodeAt(p0, q)
    {
      NodeAtSlot(p1, q);
      NodeAtSlot(p0, q);
    }
    LinksByNodes(p0, p1);
    WellFormedByNodes(p0, p1);
    StorePairsChange(p0, p1, n, n);
  }

  /**
   * When `_page_update_node` may rewrite slot r with n: r holds a tuple, n
   * is well formed and fits in that tuple's space and the gap, a set last
   * link of n leads to a leaf with its key, a leaf stays a leaf with its
   * key, and the root stays a prefix-free Node256.
   */
  predicate UpdateOk(pages: map<nat, Page>, r: Iptr, n: Node)
  {
    NodeAt(pages, r).Some? && WellFormed(n) &&
    MaxAlign(NodeSize(n)) <= MaxAlign(NodeSize(NodeAt(pages, r).value)) + pages[r.blk].gap &&
    (n.Leaf? && IptrValid(n.last) ==> LeafWithKey(pages, n.last, n.key)) &&
    (NodeAt(pages, r).value.Leaf? ==> n.Leaf? && n.key == NodeAt(pages, r).value.key) &&
    (r == RootIptr ==> n.Node256? && n.hdr.prefixLen == 0)
  }

  lemma UpdateNodeEffect(p0: map<nat, Page>, nA: nat, meta: MetaOpaque, r: Iptr, n: Node)
    requires StoreInv(p0, nA, meta) && UpdateOk(p0, r, n)
    ensures Overwrite(p0[r.blk], r.off, n).Some?
    ensures var p1 := p0[r.blk := Overwrite(p0[r.blk], r.off, n).value];
      && StoreInv(p1, nA, meta)
      && NodeAt(p1, r) == Some(n)
      && (forall q :: q != r ==> NodeAt(p1, q) == NodeAt(p0, q))
      && StorePairs(p1, nA) + SlotPairs(NodeAt(p0, r)) == StorePairs(p0, nA) + SlotPairs(Some(n))
  {
    var pg := p0[r.blk];
    OverwriteSlot(pg, r.off, n);
    var p := Overwrite(pg, r.off, n).value;
    UpdateInv(p0, nA, meta, r, n, p);
    assert r.blk < nA;
    OverwritePairs(p0, nA, r, n);
  }

  /** Writing a node that UpdateOk admits into its own slot keeps the store invariant. */
  lemma UpdateInv(p0: map<nat, Page>, nA: nat, meta: MetaOpaque, r: Iptr, n: Node, p: Page)
    requires StoreInv(p0, nA, meta) && UpdateOk(p0, r, n) && Accounted(p)
    requires OnlySlotChanged(ItemsOf(p0, r.blk), p.items, r.off as int - 1)
    requires SlotOf(p.items, r.off as int - 1) == Some(n)
    ensures StoreInv(p0[r.blk := p], nA, meta)
    ensures NodeAt(p0[r.blk := p], r) == Some(n)
    ensures forall q :: q != r ==> NodeAt(p0[r.blk := p], q) == NodeAt(p0, q)
  {
    PutPage(p0, r.blk, p, r);
    assert LinkedOk(p0[r.blk := p], Some(n)) by {
      if n.Leaf? && IptrValid(n.last) && n.last != r {
        assert NodeAt(p0[r.blk := p], n.last) == NodeAt(p0, n.last);
      }
    }
    PutPageInv(p0, nA, meta, r.blk, p, r);
  }

  /** Overwriting one slot of a data page swaps that slot's pairs in the store's pairs. */
  lemma OverwritePairs(p0: map<nat, Page>, nA: nat, r: Iptr, n: Node)
    requires r.blk in p0 && r.blk < nA && Accounted(p0[r.blk]) && HasItem(p0[r.blk], r.off)
    requires NodeAt(p0, r) == p0[r.blk].items[r.off - 1]
    requires MaxAlign(NodeSize(n)) <= MaxAlign(NodeSize(p0[r.blk].items[r.off - 1].value)) + p0[r.blk].gap
    ensures Overwrite(p0[r.blk], r.off, n).Some?
    ensures StorePairs(p0[r.blk := Overwrite(p0[r.blk], r.off, n).value], nA) + SlotPairs(NodeAt(p0, r))
         == StorePairs(p0, nA) + SlotPairs(Some(n))
  {
    var b, off := r.blk, r.off;
    OverwriteSlot(p0[b], off, n);
    PagePairsSwap(p0, nA, b, Overwrite(p0[b], off, n).value, SlotPairs(p0[b].items[off - 1]), SlotPairs(Some(n)));
  }

  /** An overwrite that fits changes exactly one slot, trading its pairs. */
  lemma OverwriteSlot(pg: Page, off: u16, n: Node)
    requires Accounted(pg) && HasItem(pg, off)
    requires MaxAlign(NodeSize(n)) <= MaxAlign(NodeSize(pg.items[off - 1].value)) + pg.gap
    ensures Overwrite(pg, off, n).Some?
    ensures var p := Overwrite(pg, off, n).value;
      && Accounted(p) && p.items == pg.items[off - 1 := Some(n)]
      && OnlySlotChanged(pg.items, p.items, off as int - 1)
      && ItemsPairs(p.items) + SlotPairs(pg.items[off - 1]) == ItemsPairs(pg.items) + SlotPairs(Some(n))
  {
    var p := Overwrite(pg, off, n).value;
    forall i | i != off as int - 1
      ensures SlotOf(p.items, i) == SlotOf(pg.items, i)
    {
    }
    ItemsPairsUpdate(pg.items, off as nat - 1, Some(n));
  }

  /** Replacing one allocated block's page changes the store's pairs as that page's pairs change. */
  lemma PagePairsSwap(p0: map<nat, Page>, nA: nat, b: nat, p: Page, x: multiset<Pair>, y: multiset<Pair>)
    requires b in p0 && b < nA && p0[b].DataPage? && p.DataPage?
    requires ItemsPairs(p.items) + x == ItemsPairs(p0[b].items) + y
    ensures StorePairs(p0[b := p], nA) + x == StorePairs(p0, nA) + y
  {
    var p1 := p0[b := p];
    assert SameElsewhere(p0, p1, b);
    assert BlockPairs(p1, b) == ItemsPairs(p.items) && BlockPairs(p0, b) == ItemsPairs(p0[b].items);
    StoreDelta(p0, p1, nA, b, x, y);
  }

  /** A set last link leads to a leaf with the same key. */
  lemma LastLink(pages: map<nat, Page>, q: Iptr)
    requires LastLinksOk(pages) && NodeAt(pages, q).Some? && NodeAt(pages, q).value.Leaf?
    requires IptrValid(NodeAt(pages, q).value.last)
    ensures LeafWithKey(pages, NodeAt(pages, q).value.last, NodeAt(pages, q).value.key)
  {
  }

  /** The in-place append is a valid rewrite when the page passes the free-space test. */
  lemma AppendFits(pages: map<nat, Page>, nA: nat, meta: MetaOpaque, t: Iptr, tid: Iptr)
    requires StoreInv(pages, nA, meta) && NodeAt(pages, t).Some? && NodeAt(pages, t).value.Leaf?
    requires FreeSpace(pages[t.blk]) > MaxAlign(SIZEOF_ITEM_POINTER)
    ensures UpdateOk(pages, t, AppendItem(NodeAt(pages, t).value, tid))
  {
    var l := NodeAt(pages, t).value;
    SlotFits(pages, t);
    AppendItemSize(l, tid);
  }

  /** A rewrite that keeps the node's size, its key and its last link. */
  lemma SameSizeFits(pages: map<nat, Page>, nA: nat, meta: MetaOpaque, r: Iptr, n: Node)
    requires StoreInv(pages, nA, meta) && NodeAt(pages, r).Some? && WellFormed(n)
    requires NodeSize(n) == NodeSize(NodeAt(pages, r).value)
    requires n.Leaf? && IptrValid(n.last) ==> LeafWithKey(pages, n.last, n.key)
    requires NodeAt(pages, r).value.Leaf? ==> n.Leaf? && n.key == NodeAt(pages, r).value.key
    requires r == RootIptr ==> n.Node256? && n.hdr.prefixLen == 0
    ensures UpdateOk(pages, r, n)
  {
  }

  /** Appending a locator adds exactly one pair; relinking a leaf adds none. */
  lemma AppendPairs(l: Node, tid: Iptr)
    requires l.Leaf?
    ensures SlotPairs(Some(AppendItem(l, tid))) == SlotPairs(Some(l)) + multiset{(l.key, tid)}
    ensures SlotPairs(Some(l.(next := tid))) == SlotPairs(Some(l)) && SlotPairs(Some(l.(last := tid))) == SlotPairs(Some(l))
  {
    LeafPairsAppend(l.key, l.items, tid);
  }

  /** An internal node holds no pairs. */
  lemma NoPairs(c: multiset<Pair>, n: Node)
    requires !n.Leaf?
    ensures SlotPairs(Some(n)) == multiset{} && c + SlotPairs(Some(n)) == c
  {
  }

  /** Rewriting an internal node with an internal node leaves the pairs as they were. */
  lemma NoPairsEither(a: multiset<Pair>, b: multiset<Pair>, x: Node, y: Node)
    requires !x.Leaf? && !y.Leaf? && a + SlotPairs(Some(x)) == b + SlotPairs(Some(y))
    ensures a == b
  {
    NoPairs(a, x);
    NoPairs(b, y);
  }

  /** Multiset bookkeeping: a + x == b + y with y == x + z gives a == b + z. */
  lemma Rebalance(a: multiset<Pair>, b: multiset<Pair>, x: multiset<Pair>, y: multiset<Pair>, z: multiset<Pair>)
    requires a + x == b + y && y == x + z
    ensures a == b + z
  {
    forall pr | true
      ensures a[pr] == (b + z)[pr]
    {
      assert (a + x)[pr] == (b + y)[pr];
    }
  }

  /**
   * Freeing the slot of an internal node other than the root keeps the
   * invariant and the pairs; only that slot changes, to empty.
   */
  lemma DeleteNodeEffect(p0: map<nat, Page>, nA: nat, meta: MetaOpaque, r: Iptr, sz: nat)
    requires StoreInv(p0, nA, meta) && NodeAt(p0, r).Some? && !NodeAt(p0, r).value.Leaf? && r != RootIptr
    ensures DeleteNoCompact(p0[r.blk], r.off).Some?
    ensures var p1 := p0[r.blk := CountedDelete(DeleteNoCompact(p0[r.blk], r.off).value, sz)];
      && StoreInv(p1, nA, meta)
      && NodeAt(p1, r).None?
      && (forall q :: q != r ==> NodeAt(p1, q) == NodeAt(p0, q))
      && StorePairs(p1, nA) == StorePairs(p0, nA)
  {
    var pg := p0[r.blk];
    var p := CountedDelete(DeleteNoCompact(pg, r.off).value, sz);
    var p1 := p0[r.blk := p];
    assert ItemsOf(p0, r.blk) == pg.items && ItemsOf(p1, r.blk) == p.items;
    DeleteSlot(pg, r.off, sz);
    PutPageInv(p0, nA, meta, r.blk, p, r);
    assert BlockPairs(p1, r.blk) + multiset{} == BlockPairs(p1, r.blk);
    assert BlockPairs(p0, r.blk) + multiset{} == BlockPairs(p0, r.blk);
    StoreDelta(p0, p1, nA, r.blk, multiset{}, multiset{});
    assert StorePairs(p1, nA) + multiset{} == StorePairs(p1, nA);
    assert StorePairs(p0, nA) + multiset{} == StorePairs(p0, nA);
  }

  /** On one page: the freed slot becomes empty, no other slot changes, and the leaf pairs stay. */
  lemma DeleteSlot(pg: Page, off: u16, sz: nat)
    requires Accounted(pg) && HasItem(pg, off) && !pg.items[off - 1].value.Leaf?
    ensures var p := CountedDelete(DeleteNoCompact(pg, off).value, sz);
      && Accounted(p)
      && OnlySlotChanged(pg.items, p.items, off as int - 1) && SlotOf(p.items, off as int - 1).None?
      && ItemsPairs(p.items) == ItemsPairs(pg.items)
  {
    var items := pg.items;
    var i := off as nat - 1;
    var d := DeleteNoCompact(pg, off).value;
    var p := CountedDelete(d, sz);
    assert p.items == d.items;
    assert SlotPairs(items[i]) == multiset{};
    if i == |items| - 1 {
      assert d.items == items[..i];
      assert items == items[..i] + [items[i]];
      ItemsPairsAppend(items[..i], items[i]);
      assert ItemsPairs(items[..i]) + multiset{} == ItemsPairs(items[..i]);
    } else {
      assert d.items == items[i := None];
      ItemsPairsUpdate(items, i, None);
      assert ItemsPairs(items[i := None]) + multiset{} == ItemsPairs(items[i := None]);
      assert ItemsPairs(items) + multiset{} == ItemsPairs(items);
    }
  }

  /** A grown node fits in place when the exact free space covers the aligned growth. */
  lemma GrownFits(pages: map<nat, Page>, nA: nat, meta: MetaOpaque, r: Iptr, g: Node)
    requires StoreInv(pages, nA, meta) && NodeAt(pages, r).Some? && !NodeAt(pages, r).value.Leaf?
    requires WellFormed(g) && Tag(g) == Tag(NodeAt(pages, r).value) + 1
    requires ExactFreeSpace(pages[r.blk]) >= MaxAlign(NodeSize(g) - NodeSize(NodeAt(pages, r).value))
    ensures UpdateOk(pages, r, g)
  {
    GrowthSize(NodeAt(pages, r).value, g);
  }

  /** The parent now holds pn: the same variant and header as before, with its child for key redirected to m. */
  predicate Relinked(before: Node, pn: Option<Node>, key: byte, m: Iptr)
    requires Shaped(before)
  {
    pn.Some? && Shaped(pn.value) && Tag(pn.value) == Tag(before) && !pn.value.Leaf? && !before.Leaf? &&
    pn.value.hdr == before.hdr && Pairs(pn.value) == Pairs(before)[key := m]
  }

  /**
   * A page a build reloads from the relation after a memory flush is a
   * copy; a copy that is not marked dirty is not written back, so a
   * rewrite of it that is not marked is lost.
   */
  lemma CleanCopyNotWritten(bp: BufferPool, blk: nat, page: Page)
    ensures FlushOne(bp, EntryView(blk, InvalidBuffer, page, false, true)) == bp
  {
  }

  /** A dirty copy is written back with its rewritten image. */
  lemma DirtyCopyWritten(bp: BufferPool, blk: nat, page: Page)
    ensures var bp' := FlushOne(bp, EntryView(blk, InvalidBuffer, page, true, true));
      blk in bp'.blocks && bp'.blocks[blk] == page && blk in bp'.marked
  {
    FlushOneImage(bp, EntryView(blk, InvalidBuffer, page, true, true), blk);
    FlushOneMarked(bp, EntryView(blk, InvalidBuffer, page, true, true), blk);
  }

  // ------------------------------------------------------------------
  // Splits and the descent

  /**
   * What the descent knows of the node it came from: parent holds an
   * internal node whose child for the key byte before depth is r.
   */
  predicate ParentOk(pages: map<nat, Page>, parent: Iptr, r: Iptr, key: seq<byte>, depth: nat)
  {
    NodeAt(pages, parent).Some? && !NodeAt(pages, parent).value.Leaf? && WellFormed(NodeAt(pages, parent).value) &&
    1 <= depth <= |key| && key[depth - 1] in Pairs(NodeAt(pages, parent).value) &&
    Pairs(NodeAt(pages, parent).value)[key[depth - 1]] == r
  }

  /** Where the descent stands: at the root with no parent, or below a parent that leads to r. */
  predicate Descent(pages: map<nat, Page>, r: Iptr, parent: Option<Iptr>, key: seq<byte>, depth: nat)
  {
    depth <= |key| &&
    (parent.None? ==> r == RootIptr && depth == 0) &&
    (parent.Some? ==> ParentOk(pages, parent.value, r, key, depth))
  }

  /**
   * Whether the insert descent for (key, tid), standing at r below parent
   * at depth, stops Stuck. It reads the store the descent starts in, for
   * nothing is written before the descent settles. The states it stops at
   * are a dangling locator, a key byte past the key's end, the second
   * last-link hop of a leaf chain, a leaf split whose bytes run past a
   * leaf's data or coincide, a minimum leaf that cannot be reached or is
   * too short for a prefix split, a split byte equal to the key's, and a
   * parent equal to the node where the node would be replaced.
   */
  ghost predicate Blocked(pages: map<nat, Page>, r: Iptr, parent: Option<Iptr>, depth: nat, key: seq<byte>, tid: Iptr)
    requires StoreWellFormed(pages) && depth <= |key|
    decreases |key| - depth, 2
  {
    NodeAtWellFormed(pages, r);
    match NodeAt(pages, r)
    case None => true
    case Some(n) =>
      if n.Leaf? then
        if n.key == key then ChainTail(pages, r).None? else SplitBlocked(n, key, tid, depth)
      else if n.hdr.prefixLen == 0 then
        depth >= |key| || BlockedBelow(pages, r, parent, depth, key, tid)
      else
        PrefixBlocked(pages, r, parent, depth, key, tid)
  }

  /** The prefix case of Blocked, at an internal node r with a non-empty prefix. */
  ghost predicate PrefixBlocked(pages: map<nat, Page>, r: Iptr, parent: Option<Iptr>, depth: nat, key: seq<byte>, tid: Iptr)
    requires StoreWellFormed(pages) && depth <= |key| && NodeAt(pages, r).Some? && !NodeAt(pages, r).value.Leaf?
    requires NodeAt(pages, r).value.hdr.prefixLen != 0
    decreases |key| - depth, 1
  {
    NodeAtWellFormed(pages, r);
    var n := NodeAt(pages, r).value;
    var plen := n.hdr.prefixLen as nat;
    var mm := MismatchAt(pages, n, key, depth);
    if mm.None? then true
    else
      match PrefixStep(mm.value, plen)
      case Some(pd) => PrefixSplitBlocked(pages, n, parent == Some(r), depth, pd, key)
      case None =>
        depth + plen >= |key| || BlockedBelow(pages, r, parent, depth + plen, key, tid)
  }

  /**
   * Whether the prefix split of n at offset pd stops Stuck: the parent is
   * n itself, the key ends at the split, the plan for the old node's new
   * header cannot be made, or its split byte equals the key's.
   */
  predicate PrefixSplitBlocked(pages: map<nat, Page>, n: Node, toSelf: bool, depth: nat, pd: nat, key: seq<byte>)
    requires StoreWellFormed(pages) && WellFormed(n) && !n.Leaf? && pd < n.hdr.prefixLen as nat
  {
    toSelf || depth + pd >= |key| ||
    var plan := PrefixPlan(pages, n, depth, pd);
    plan.None? || plan.value.1 == key[depth + pd]
  }

  /** The prefix case of Blocked when the key leaves the prefix at pd. */
  lemma BlockedAtSplit(pages: map<nat, Page>, r: Iptr, n: Node, parent: Option<Iptr>, depth: nat, key: seq<byte>, tid: Iptr, pd: nat)
    requires StoreWellFormed(pages) && depth <= |key| && NodeAt(pages, r) == Some(n) && !n.Leaf? && n.hdr.prefixLen != 0
    requires WellFormed(n) && MismatchAt(pages, n, key, depth) == Some(pd) && pd < n.hdr.prefixLen as nat
    ensures PrefixBlocked(pages, r, parent, depth, key, tid) <==> PrefixSplitBlocked(pages, n, parent == Some(r), depth, pd, key)
  {
  }

  /** The prefix case of Blocked when the key runs past the whole prefix. */
  lemma BlockedPastPrefix(pages: map<nat, Page>, r: Iptr, n: Node, parent: Option<Iptr>, depth: nat, key: seq<byte>, tid: Iptr, mm: nat)
    requires StoreWellFormed(pages) && NodeAt(pages, r) == Some(n) && !n.Leaf? && n.hdr.prefixLen != 0
    requires WellFormed(n) && depth + n.hdr.prefixLen as nat < |key|
    requires MismatchAt(pages, n, key, depth) == Some(mm) && mm >= n.hdr.prefixLen as nat
    ensures PrefixBlocked(pages, r, parent, depth, key, tid) <==> BlockedBelow(pages, r, parent, depth + n.hdr.prefixLen as nat, key, tid)
  {
  }

  /** The prefix case of Blocked when the key ends inside or at the end of a matched prefix. */
  lemma BlockedKeyEndsInPrefix(pages: map<nat, Page>, r: Iptr, n: Node, parent: Option<Iptr>, depth: nat, key: seq<byte>, tid: Iptr, mm: nat)
    requires StoreWellFormed(pages) && NodeAt(pages, r) == Some(n) && !n.Leaf? && n.hdr.prefixLen != 0
    requires WellFormed(n) && depth <= |key| <= depth + n.hdr.prefixLen as nat
    requires MismatchAt(pages, n, key, depth) == Some(mm) && mm >= n.hdr.prefixLen as nat
    ensures PrefixBlocked(pages, r, parent, depth, key, tid)
  {
  }

  /** The prefix case of Blocked when the minimum leaf the comparison needs cannot be reached. */
  lemma BlockedNoMismatch(pages: map<nat, Page>, r: Iptr, n: Node, parent: Option<Iptr>, depth: nat, key: seq<byte>, tid: Iptr)
    requires StoreWellFormed(pages) && NodeAt(pages, r) == Some(n) && !n.Leaf? && n.hdr.prefixLen != 0
    requires WellFormed(n) && depth <= |key| && MismatchAt(pages, n, key, depth).None?
    ensures PrefixBlocked(pages, r, parent, depth, key, tid)
  {
  }

  /** The search part of the descent at internal node r, past its prefix at depth. */
  ghost predicate BlockedBelow(pages: map<nat, Page>, r: Iptr, parent: Option<Iptr>, depth: nat, key: seq<byte>, tid: Iptr)
    requires StoreWellFormed(pages) && depth < |key| && NodeAt(pages, r).Some? && !NodeAt(pages, r).value.Leaf?
    decreases |key| - depth, 0
  {
    NodeAtWellFormed(pages, r);
    var n := NodeAt(pages, r).value;
    if key[depth] in Pairs(n) then Blocked(pages, Pairs(n)[key[depth]], Some(r), depth + 1, key, tid)
    else !n.Node256? && n.hdr.numChildren as nat >= Capacity(n) && (parent.None? || parent == Some(r))
  }

  /** The child the exact lookup finds for the key byte continues the descent one level down. */
  lemma ChildDescent(pages: map<nat, Page>, r: Iptr, n: Node, key: seq<byte>, depth: nat, c: Iptr)
    requires StoreWellFormed(pages) && NodeAt(pages, r) == Some(n) && !n.Leaf? && depth < |key|
    requires ChildEqual(n, key[depth]) == Some(c)
    ensures key[depth] in Pairs(n) && Pairs(n)[key[depth]] == c
    ensures Descent(pages, c, Some(r), key, depth + 1)
  {
    NodeAtWellFormed(pages, r);
    ChildEqualIsPairs(n, key[depth]);
  }

  /** The search part of Blocked when the node has a child for the key byte. */
  lemma BlockedBelowAtChild(pages: map<nat, Page>, r: Iptr, n: Node, parent: Option<Iptr>, depth: nat, key: seq<byte>, tid: Iptr, c: Iptr)
    requires StoreWellFormed(pages) && depth < |key| && NodeAt(pages, r) == Some(n) && !n.Leaf?
    requires key[depth] in Pairs(n) && Pairs(n)[key[depth]] == c
    ensures BlockedBelow(pages, r, parent, depth, key, tid) <==> Blocked(pages, c, Some(r), depth + 1, key, tid)
  {
  }

  /** The search part of Blocked when the node has no child for the key byte. */
  lemma BlockedBelowNoChild(pages: map<nat, Page>, r: Iptr, n: Node, parent: Option<Iptr>, depth: nat, key: seq<byte>, tid: Iptr)
    requires StoreWellFormed(pages) && depth < |key| && NodeAt(pages, r) == Some(n) && !n.Leaf? && key[depth] !in Pairs(n)
    ensures BlockedBelow(pages, r, parent, depth, key, tid) <==>
      !n.Node256? && n.hdr.numChildren as nat >= Capacity(n) && (parent.None? || parent == Some(r))
  {
  }

  /** A key whose first byte the root Node256 has no child for gets a new leaf there. */
  lemma FreeRootByteNotBlocked(pages: map<nat, Page>, key: seq<byte>, tid: Iptr)
    requires StoreWellFormed(pages) && RootOk(pages) && |key| >= 1
    requires key[0] !in Pairs(NodeAt(pages, RootIptr).value)
    ensures !Blocked(pages, RootIptr, None, 0, key, tid)
  {
    assert !BlockedBelow(pages, RootIptr, None, 0, key, tid);
  }

  /**
   * A key whose first byte leads from the root to a leaf is placed: on
   * that leaf's chain when the keys are equal and the leaf has no last
   * link, by a leaf split when the split bytes exist and differ.
   */
  lemma RootLeafNotBlocked(pages: map<nat, Page>, key: seq<byte>, tid: Iptr, l: Node)
    requires StoreWellFormed(pages) && RootOk(pages) && |key| >= 1
    requires key[0] in Pairs(NodeAt(pages, RootIptr).value)
    requires NodeAt(pages, Pairs(NodeAt(pages, RootIptr).value)[key[0]]) == Some(l) && l.Leaf?
    requires if l.key == key then !IptrValid(l.last) else !SplitBlocked(l, key, tid, 1)
    ensures !Blocked(pages, RootIptr, None, 0, key, tid)
  {
    var c := Pairs(NodeAt(pages, RootIptr).value)[key[0]];
    assert !Blocked(pages, c, Some(RootIptr), 1, key, tid);
    assert !BlockedBelow(pages, RootIptr, None, 0, key, tid);
  }

  /** The first insert into the store `artbuild` sets up is never Stuck, whatever its non-empty key. */
  lemma FirstInsertNotBlocked(pages: map<nat, Page>, key: seq<byte>, tid: Iptr)
    requires StoreWellFormed(pages) && NodeAt(pages, RootIptr) == AllocNode(NODE_256) && |key| >= 1
    ensures !Blocked(pages, RootIptr, None, 0, key, tid)
  {
    FreeRootByteNotBlocked(pages, key, tid);
  }

  /**
   * The header of a split's fresh Node4: the prefix length as a uint8,
   * the first min(8, length) bytes of src, the rest zero.
   */
  function SplitHeader(len: nat, src: seq<byte>, parent: Iptr): (h: Header)
    requires Min(MAX_PREFIX_KEY_LEN, len) <= |src|
    ensures HeaderShaped(h) && h.numChildren == 0 && h.prefixLen as nat == len % 256 && h.parent == parent
    ensures forall i :: 0 <= i < Min(MAX_PREFIX_KEY_LEN, len) ==> h.prefix[i] == src[i]
    ensures forall i :: Min(MAX_PREFIX_KEY_LEN, len) <= i < MAX_PREFIX_KEY_LEN ==> h.prefix[i] == 0
  {
    var m := Min(MAX_PREFIX_KEY_LEN, len);
    Header(parent, 0, len % 256, src[..m] + Zeros(MAX_PREFIX_KEY_LEN - m))
  }

  /**
   * The old node's header after a split inside an inline prefix: the
   * bytes after the split position move to the front, the rest is zeroed.
   */
  function ShiftedHeader(h: Header, pd: nat): (r: Header)
    requires HeaderShaped(h) && pd < h.prefixLen as nat <= MAX_PREFIX_KEY_LEN
    ensures HeaderShaped(r) && r.prefixLen as nat == h.prefixLen as nat - pd - 1
    ensures r.parent == h.parent && r.numChildren == h.numChildren
    ensures forall i :: 0 <= i < r.prefixLen as nat ==> r.prefix[i] == h.prefix[pd + 1 + i]
    ensures forall i :: r.prefixLen as nat <= i < MAX_PREFIX_KEY_LEN ==> r.prefix[i] == 0
  {
    var rest := h.prefixLen as nat - pd - 1;
    h.(prefixLen := rest, prefix := h.prefix[pd + 1..h.prefixLen] + Zeros(MAX_PREFIX_KEY_LEN - rest))
  }

  /**
   * The old node's header after a split of a prefix longer than 8: the
   * shorter length, and the given bytes (of the minimum leaf's key) over
   * the front of the old inline bytes, which are otherwise kept.
   */
  function ReloadedHeader(h: Header, pd: nat, bytes: seq<byte>): (r: Header)
    requires HeaderShaped(h) && pd < h.prefixLen as nat && |bytes| == Min(MAX_PREFIX_KEY_LEN, h.prefixLen as nat - pd - 1)
    ensures HeaderShaped(r) && r.prefixLen as nat == h.prefixLen as nat - pd - 1
    ensures r.parent == h.parent && r.numChildren == h.numChildren
    ensures forall i :: 0 <= i < |bytes| ==> r.prefix[i] == bytes[i]
    ensures forall i :: |bytes| <= i < MAX_PREFIX_KEY_LEN ==> r.prefix[i] == h.prefix[i]
  {
    h.(prefixLen := h.prefixLen as nat - pd - 1, prefix := bytes + h.prefix[|bytes|..])
  }

  /**
   * An internal node with a prefix (so not the root) may be rewritten
   * with a header of the same count: shape, pairs and size are kept.
   */
  lemma NewHeaderFits(pages: map<nat, Page>, nA: nat, meta: MetaOpaque, r: Iptr, h: Header)
    requires StoreInv(pages, nA, meta) && NodeAt(pages, r).Some? && !NodeAt(pages, r).value.Leaf?
    requires NodeAt(pages, r).value.hdr.prefixLen > 0
    requires HeaderShaped(h) && h.numChildren == NodeAt(pages, r).value.hdr.numChildren
    ensures var n := NodeAt(pages, r).value;
      UpdateOk(pages, r, n.(hdr := h)) && !n.(hdr := h).Leaf? && Pairs(n.(hdr := h)) == Pairs(n) && Tag(n.(hdr := h)) == Tag(n)
  {
    var n := NodeAt(pages, r).value;
    assert r != RootIptr;
    SameSizeFits(pages, nA, meta, r, n.(hdr := h));
  }

  /**
   * The bytes a leaf split keys its two leaves by: byte depth + LCP of
   * the old leaf's data and of the new leaf's (key, then tid). Past the
   * shorter key that byte is the first byte of the leaf's first locator.
   */
  function SplitBytes(l: Node, key: seq<byte>, tid: Iptr, depth: nat): (Option<byte>, Option<byte>)
    requires l.Leaf?
  {
    var i := depth + CommonPrefixLen(l.key, key, depth);
    (DataByte(l.key, l.items, i), DataByte(key, [tid], i))
  }

  /** The split bytes as `_node_insert_recursive` reads them, once the common run is known. */
  lemma SplitBytesAt(l: Node, key: seq<byte>, tid: Iptr, depth: nat, lcp: nat, b1: Option<byte>, b2: Option<byte>)
    requires l.Leaf? && lcp == CommonPrefixLen(l.key, key, depth)
    requires b1 == DataByte(l.key, l.items, depth + lcp) && b2 == DataByte(key, [tid], depth + lcp)
    ensures SplitBlocked(l, key, tid, depth) <==> b1.None? || b2.None? || b1 == b2
    ensures SplitBytes(l, key, tid, depth) == (b1, b2)
  {
  }

  /**
   * Where the model stops a leaf split: a byte past the end of a leaf's
   * data, or the same byte for both leaves (which the source would file
   * as two children under one key).
   */
  predicate SplitBlocked(l: Node, key: seq<byte>, tid: Iptr, depth: nat)
    requires l.Leaf?
  {
    var bs := SplitBytes(l, key, tid, depth);
    bs.0.None? || bs.1.None? || bs.0 == bs.1
  }

  /** When both keys go on past their common run, the split bytes are the keys' own, and they differ. */
  lemma SplitBytesInKeys(l: Node, key: seq<byte>, tid: Iptr, depth: nat)
    requires l.Leaf? && var lcp := CommonPrefixLen(l.key, key, depth); depth + lcp < |l.key| && depth + lcp < |key|
    ensures var i := depth + CommonPrefixLen(l.key, key, depth);
      SplitBytes(l, key, tid, depth) == (Some(l.key[i]), Some(key[i])) && !SplitBlocked(l, key, tid, depth)
  {
  }

  /**
   * Keys 'a' 'b' 0 (the bytea "ab") and 'a' 'b' 0 'c' 0 (the bytea
   * "ab\x00c") from depth 1: the shorter key ends inside the common run,
   * so the old leaf goes under the first byte of its locator (block 5,
   * offset 1), 0, and the new one under 'c'.
   */
  lemma ShortKeySplitsOnLocator()
    ensures var l := Leaf(ZeroIptr, InvalidIptr, InvalidIptr, [97, 98, 0], [Iptr(5, 1)]);
      SplitBytes(l, [97, 98, 0, 99, 0], Iptr(6, 1), 1) == (Some(0), Some(99))
  {
    var l := Leaf(ZeroIptr, InvalidIptr, InvalidIptr, [97, 98, 0], [Iptr(5, 1)]);
    var key: seq<byte> := [97, 98, 0, 99, 0];
    RunAgrees(l.key, 1, key, 1, 0, 2);
    assert CommonPrefixLen(l.key, key, 1) == 2;
    assert IptrBytes(Iptr(5, 1))[0] == 0;
  }

  /**
   * The Node4 a leaf split makes: the run the two keys share from depth
   * as its prefix, and the old leaf r and the new leaf nl under their
   * split bytes.
   */
  predicate LeafSplitNode(n4: Node, l: Node, key: seq<byte>, tid: Iptr, depth: nat, r: Iptr, nl: Iptr)
    requires l.Leaf?
  {
    var lcp := CommonPrefixLen(l.key, key, depth);
    var bs := SplitBytes(l, key, tid, depth);
    depth <= |key| && !SplitBlocked(l, key, tid, depth) &&
    n4.Node4? && WellFormed(n4) && n4.hdr == SplitHeader(lcp, key[depth..], ZeroIptr).(numChildren := 2) &&
    Pairs(n4) == map[bs.0.value := r, bs.1.value := nl]
  }

  /**
   * The old node's side of a split at offset pd of a prefix longer than
   * 8, given its minimum leaf's key lk: the header with the shorter
   * length whose first min(8, rest) bytes are lk's from depth + pd + 1,
   * and the byte lk has at depth + pd. None when lk is too short to read.
   */
  function LongPlan(h: Header, pd: nat, depth: nat, lk: seq<byte>): (r: Option<(Header, byte)>)
    requires HeaderShaped(h) && pd < h.prefixLen as nat
    ensures var k := Min(MAX_PREFIX_KEY_LEN, h.prefixLen as nat - pd - 1);
      && (r.Some? <==> depth + pd + 1 + k <= |lk|)
      && (r.Some? ==> r.value.1 == lk[depth + pd] && r.value.0.prefixLen as nat == h.prefixLen as nat - pd - 1)
      && (r.Some? ==> HeaderShaped(r.value.0) && r.value.0.parent == h.parent && r.value.0.numChildren == h.numChildren)
      && (r.Some? ==> forall i :: 0 <= i < k ==> r.value.0.prefix[i] == lk[depth + pd + 1 + i])
  {
    var k := Min(MAX_PREFIX_KEY_LEN, h.prefixLen as nat - pd - 1);
    if depth + pd + 1 + k > |lk| then None
    else Some((ReloadedHeader(h, pd, lk[depth + pd + 1..depth + pd + 1 + k]), lk[depth + pd]))
  }

  /**
   * The old node's side of a split inside its prefix at offset pd: its
   * new header and the key byte it hangs under in the new Node4. An
   * inline prefix (at most 8 bytes) supplies both itself; a longer one
   * takes them from the node's minimum leaf. None when there is no
   * minimum leaf or its key is too short to read.
   */
  function PrefixPlan(pages: map<nat, Page>, n: Node, depth: nat, pd: nat): (r: Option<(Header, byte)>)
    requires StoreWellFormed(pages) && WellFormed(n) && !n.Leaf? && pd < n.hdr.prefixLen as nat
    ensures r.Some? ==> HeaderShaped(r.value.0) && r.value.0.prefixLen as nat == n.hdr.prefixLen as nat - pd - 1
    ensures r.Some? ==> r.value.0.parent == n.hdr.parent && r.value.0.numChildren == n.hdr.numChildren
  {
    var h := n.hdr;
    if h.prefixLen as nat <= MAX_PREFIX_KEY_LEN then Some((ShiftedHeader(h, pd), h.prefix[pd]))
    else
      match MinLeaf(pages, n, MAX_DEPTH)
      case None => None
      case Some(l) => LongPlan(h, pd, depth, l.key)
  }

  /**
   * A split inside an inline prefix loses no byte of the path: the new
   * Node4's prefix, the byte the old node hangs under and the old node's
   * shortened prefix spell the old prefix.
   */
  lemma InlineSplitKeepsPath(h: Header, pd: nat, parent: Iptr)
    requires HeaderShaped(h) && pd < h.prefixLen as nat <= MAX_PREFIX_KEY_LEN
    ensures var front := SplitHeader(pd, h.prefix, parent);
      var back := ShiftedHeader(h, pd);
      front.prefix[..pd] + [h.prefix[pd]] + back.prefix[..back.prefixLen] == h.prefix[..h.prefixLen]
  {
    var front := SplitHeader(pd, h.prefix, parent);
    var back := ShiftedHeader(h, pd);
    var whole := front.prefix[..pd] + [h.prefix[pd]] + back.prefix[..back.prefixLen];
    forall i | 0 <= i < h.prefixLen as nat
      ensures whole[i] == h.prefix[i]
    {
      if i > pd {
        assert whole[i] == back.prefix[i - pd - 1];
      }
    }
  }

  /** `_art_prefix_mismatch`'s caller's split plan, computed as the code does with `_art_minimum_leaf`. */
  method PlanPrefixSplit(pages: map<nat, Page>, n: Node, depth: nat, pd: nat) returns (r: Option<(Header, byte)>)
    requires StoreWellFormed(pages) && WellFormed(n) && !n.Leaf? && pd < n.hdr.prefixLen as nat
    ensures r == PrefixPlan(pages, n, depth, pd)
  {
    var h := n.hdr;
    if h.prefixLen as nat <= MAX_PREFIX_KEY_LEN {
      return Some((ShiftedHeader(h, pd), h.prefix[pd]));
    }
    var ml := MinimumLeaf(pages, n);
    if ml.None? {
      return None;
    }
    r := LongPlan(h, pd, depth, ml.value.key);
  }

  /**
   * The Node4 a prefix split makes: the first pd bytes of the old prefix,
   * the old node as its parent, and the old node r and the new leaf lf
   * under bytes b1 and b2.
   */
  predicate PrefixSplitNode(n4: Node, h: Header, pd: nat, r: Iptr, b1: byte, b2: byte, lf: Iptr)
  {
    |h.prefix| == MAX_PREFIX_KEY_LEN && n4.Node4? && WellFormed(n4) &&
    n4.hdr == SplitHeader(pd, h.prefix, r).(numChildren := 2) && Pairs(n4) == map[b1 := r, b2 := lf]
  }

  /** The two `_add_child` calls that fill a split's fresh Node4. */
  method TwoChildNode4(h: Header, b1: byte, c1: Iptr, b2: byte, c2: Iptr) returns (n4: Node)
    requires HeaderShaped(h) && h.numChildren == 0 && b1 != b2 && IptrValid(c1) && IptrValid(c2)
    ensures n4.Node4? && WellFormed(n4) && n4.hdr == h.(numChildren := 2) && Pairs(n4) == map[b1 := c1, b2 := c2]
  {
    var e := Node4(h, Zeros(4), ZeroIptrs(4));
    var a, g1 := AddChild(e, b1, c1);
    var g2;
    n4, g2 := AddChild(a, b2, c2);
  }

  // ------------------------------------------------------------------
  // Which keys are indexed, and where a prefix mismatch leads

  /**
   * The build callback's and `artinsert`'s key-length test as written
   * (art_insert.c:1199-1212, 1471-1483): an empty key is skipped and a key
   * of ART_PAGE_SIZE bytes or more is refused with a warning.
   */
  predicate AcceptsAsWritten(keyLen: nat)
  {
    keyLen != 0 && keyLen < ART_PAGE_SIZE
  }

  /** The test as intended: the key is not empty and its one-locator leaf fits an empty page. */
  predicate Accepts(keyLen: nat)
  {
    0 < keyLen <= MAX_LEAF_KEY_LEN
  }

  lemma MaxAlignMono(a: nat, b: nat)
    requires a <= b
    ensures MaxAlign(a) <= MaxAlign(b)
  {
  }

  /** The corrected test accepts exactly the keys whose new leaf `_page_add_node` can place on a fresh page. */
  lemma AcceptsIffFits(key: seq<byte>, tid: Iptr)
    ensures Accepts(|key|) <==> |key| != 0 && SizeOfItemIdData + MaxAlign(NodeSize(NewLeaf(key, tid))) <= EmptyGap
  {
    MaxLeafKeyTight();
    if |key| > MAX_LEAF_KEY_LEN {
      assert MaxAlign(SIZEOF_LEAF + MAX_LEAF_KEY_LEN + 1 + SIZEOF_ITEM_POINTER) <= MaxAlign(NodeSize(NewLeaf(key, tid))) by {
        MaxAlignMono(SIZEOF_LEAF + MAX_LEAF_KEY_LEN + 1 + SIZEOF_ITEM_POINTER, NodeSize(NewLeaf(key, tid)));
      }
    } else if |key| != 0 {
      MaxAlignMono(NodeSize(NewLeaf(key, tid)), SIZEOF_LEAF + MAX_LEAF_KEY_LEN + SIZEOF_ITEM_POINTER);
    }
  }

  /** The test as written lets through a key whose leaf no page can hold: 8143 bytes, say. */
  lemma AcceptsAsWrittenTooLarge(key: seq<byte>, tid: Iptr)
    requires |key| == ART_PAGE_SIZE - 1
    ensures AcceptsAsWritten(|key|) && !Accepts(|key|)
    ensures SizeOfItemIdData + MaxAlign(NodeSize(NewLeaf(key, tid))) == 8180 > EmptyGap
  {
    AcceptsIffFits(key, tid);
  }

  /**
   * Where `_node_insert_recursive` goes once `_art_prefix_mismatch` has
   * returned mm for a node whose prefix is plen bytes long, as written
   * (art_insert.c:1000-1023): the result is stored in a uint8_t, so only
   * mm mod 256 is compared. None descends past the prefix, Some(pd)
   * splits the prefix at pd.
   */
  function PrefixStepAsWritten(mm: nat, plen: nat): (r: Option<nat>)
    ensures r.None? <==> mm % 256 >= plen
    ensures r.Some? ==> r.value == mm % 256 < plen
  {
    var pd := mm % 256;
    if pd >= plen then None else Some(pd)
  }

  /** The step as intended: split exactly when the mismatch falls inside the prefix, at the mismatch. */
  function PrefixStep(mm: nat, plen: nat): (r: Option<nat>)
    ensures r.None? <==> mm >= plen
    ensures r.Some? ==> r.value == mm < plen
  {
    if mm >= plen then None else Some(mm)
  }

  /** The two agree whenever the mismatch offset fits in a byte, */
  lemma PrefixStepAgrees(mm: nat, plen: nat)
    requires mm < 256
    ensures PrefixStepAsWritten(mm, plen) == PrefixStep(mm, plen)
  {
  }

  /**
   * but a key that agrees with a 200-byte prefix (and 60 bytes beyond,
   * down the minimum leaf) is split at offset 4 as written, where the
   * corrected step descends past the prefix.
   */
  lemma PrefixStepTruncates()
    ensures PrefixStepAsWritten(260, 200) == Some(4) && PrefixStep(260, 200).None?
  {
  }

  /**
   * The corrected step splits only where the key really leaves the
   * node's inline prefix: when the mismatch lands inside the inline bytes
   * and inside the key, the key's byte there differs from the prefix's.
   */
  lemma PrefixStepSplitsAtMismatch(pages: map<nat, Page>, n: Node, key: seq<byte>, depth: nat)
    requires StoreWellFormed(pages) && WellFormed(n) && !n.Leaf? && depth <= |key|
    requires MismatchAt(pages, n, key, depth).Some?
    ensures var mm := MismatchAt(pages, n, key, depth).value;
      var step := PrefixStep(mm, n.hdr.prefixLen as nat);
      && (step.None? ==> forall i :: 0 <= i < Min(MAX_PREFIX_KEY_LEN, n.hdr.prefixLen as nat) ==> n.hdr.prefix[i] == key[depth + i])
      && (step.Some? && step.value < MAX_PREFIX_KEY_LEN && depth + step.value < |key| ==>
            n.hdr.prefix[step.value] != key[depth + step.value])
  {
    MismatchAtFacts(pages, n, key, depth);
  }

  // ------------------------------------------------------------------
  // The build state

  /** The store `artbuild` sets up holds the root alone, satisfies the invariant and holds no pairs. */
  lemma InitialStore(root: Node, rootPage: Page, leafPage: Page, pages: map<nat, Page>, meta: MetaOpaque)
    requires root.Node256? && WellFormed(root) && root.hdr.prefixLen == 0
    requires Accounted(rootPage) && rootPage.items == [Some(root)]
    requires Accounted(leafPage) && leafPage.items == []
    requires pages == map[ART_ROOT_NODE_BLKNO := rootPage, ART_LEAF_NODE_BLKNO := leafPage]
    requires meta.lastInternal == ART_ROOT_NODE_BLKNO && meta.lastLeaf == ART_LEAF_NODE_BLKNO
    ensures StoreInv(pages, 3, meta) && StorePairs(pages, 3) == multiset{}
    ensures NodeAt(pages, RootIptr) == Some(root)
  {
    InitialNodes(root, rootPage, leafPage, pages);
    InitialPairs(root, rootPage, leafPage, pages);
  }

  /** The root is the only node of the initial store. */
  lemma InitialNodes(root: Node, rootPage: Page, leafPage: Page, pages: map<nat, Page>)
    requires root.Node256? && WellFormed(root)
    requires Accounted(rootPage) && rootPage.items == [Some(root)] && Accounted(leafPage) && leafPage.items == []
    requires pages == map[ART_ROOT_NODE_BLKNO := rootPage, ART_LEAF_NODE_BLKNO := leafPage]
    ensures NodeAt(pages, RootIptr) == Some(root)
    ensures forall q :: NodeAt(pages, q).Some? ==> q == RootIptr
  {
    assert NodeAt(pages, RootIptr) == Some(root);
    forall q | NodeAt(pages, q).Some?
      ensures q == RootIptr
    {
    }
  }

  /** The initial store holds no (key, locator) pair: its one node is an empty Node256. */
  lemma InitialPairs(root: Node, rootPage: Page, leafPage: Page, pages: map<nat, Page>)
    requires root.Node256? && WellFormed(root)
    requires Accounted(rootPage) && rootPage.items == [Some(root)] && Accounted(leafPage) && leafPage.items == []
    requires pages == map[ART_ROOT_NODE_BLKNO := rootPage, ART_LEAF_NODE_BLKNO := leafPage]
    ensures StorePairs(pages, 3) == multiset{}
  {
    assert ItemsOf(pages, 0) == [] && ItemsOf(pages, 2) == [];
    assert BlockPairs(pages, 1) == multiset{} by {
      assert rootPage.items == [] + [Some(root)];
      ItemsPairsAppend([], Some(root));
    }
    assert StorePairs(pages, 1) == multiset{};
    assert StorePairs(pages, 2) == multiset{};
  }

  /**
   * The pages `artbuild` sets up: block 1 a node page holding the root
   * Node256 as its first item, block 2 an empty leaf page, both tails.
   */
  method InitialPages() returns (pg: map<nat, Page>, md: MetaOpaque)
    ensures StoreInv(pg, 3, md) && StorePairs(pg, 3) == multiset{}
    ensures md.lastInternal == ART_ROOT_NODE_BLKNO && md.lastLeaf == ART_LEAF_NODE_BLKNO
    ensures pg.Keys == {ART_ROOT_NODE_BLKNO, ART_LEAF_NODE_BLKNO}
    ensures NodeAt(pg, RootIptr) == AllocNode(NODE_256) && pg[ART_LEAF_NODE_BLKNO] == InitDataPage(ART_LEAF_PAGE)
  {
    var root := AllocNode(NODE_256).value;
    var added := AddItem(InitDataPage(ART_NODE_PAGE), root);
    var rootPage := Counted(added.0);
    var leafPage := InitDataPage(ART_LEAF_PAGE);
    pg := map[ART_ROOT_NODE_BLKNO := rootPage, ART_LEAF_NODE_BLKNO := leafPage];
    md := MetaOpaque(seq(ART_CACHED_PAGES, _ => PageCacheSlot(0, 0)), ART_ROOT_NODE_BLKNO, ART_LEAF_NODE_BLKNO);
    assert added.1 != 0 && added.0.items == [Some(root)];
    InitialStore(root, rootPage, leafPage, pg, md);
    assert pg.Keys == {ART_ROOT_NODE_BLKNO, ART_LEAF_NODE_BLKNO};
  }

  class ArtState {
    var pages: map<nat, Page>
    var dirty: set<nat>
    var numAllocated: nat
    var meta: MetaOpaque
    var nTuples: nat
    /** The leaf insert threshold as the fraction thrNum/thrDen. */
    const thrNum: nat
    const thrDen: nat

    ghost predicate Valid()
      reads this
    {
      0 < thrDen && thrNum <= thrDen && StoreInv(pages, numAllocated, meta)
    }

    /** The (key, locator) pairs the leaves of the store hold. */
    ghost function Contents(): multiset<Pair>
      reads this
    {
      StorePairs(pages, numAllocated)
    }

    /**
     * The setup of `artbuild`: block 1 a node page holding the root Node256
     * as its first item, block 2 an empty leaf page, both dirty and both
     * tails; blocks 0 to 2 allocated.
     */
    constructor (thrNum: nat, thrDen: nat)
      requires 0 < thrDen && thrNum <= thrDen
      ensures Valid() && Contents() == multiset{} && nTuples == 0
      ensures numAllocated == 3 && dirty == {ART_ROOT_NODE_BLKNO, ART_LEAF_NODE_BLKNO}
      ensures meta.lastInternal == ART_ROOT_NODE_BLKNO && meta.lastLeaf == ART_LEAF_NODE_BLKNO
      ensures pages.Keys == {ART_ROOT_NODE_BLKNO, ART_LEAF_NODE_BLKNO}
      ensures NodeAt(pages, RootIptr) == AllocNode(NODE_256) && pages[ART_LEAF_NODE_BLKNO] == InitDataPage(ART_LEAF_PAGE)
    {
      var pg, md := InitialPages();
      this.thrNum := thrNum;
      this.thrDen := thrDen;
      pages := pg;
      dirty := {ART_ROOT_NODE_BLKNO, ART_LEAF_NODE_BLKNO};
      numAllocated := 3;
      meta := md;
      nTuples := 0;
    }

    /**
     * `_get_page_with_free_space` on the in-memory build: the tail page of
     * the kind when it passes the free-space test, otherwise a new page
     * numbered by the allocation counter, initialised, dirty, linked from
     * the old tail's right link (which is not marked dirty) and made the
     * tail. No slot changes.
     */
    method GetPageWithFreeSpace(pageType: byte, itemSize: nat) returns (blk: nat)
      requires Valid()
      modifies this
      ensures Valid() && blk in pages
      ensures forall q :: NodeAt(pages, q) == NodeAt(old(pages), q)
      ensures Contents() == old(Contents()) && nTuples == old(nTuples)
      ensures SizeOfItemIdData + MaxAlign(itemSize) <= EmptyGap ==> SizeOfItemIdData + MaxAlign(itemSize) <= pages[blk].gap
      ensures var tail := TailOf(old(meta), pageType);
        if TailHasRoom(old(pages)[tail], pageType, itemSize, thrNum, thrDen)
        then blk == tail && pages == old(pages) && dirty == old(dirty) &&
             numAllocated == old(numAllocated) && meta == old(meta)
        else blk == old(numAllocated) && numAllocated == blk + 1 && blk !in old(pages) &&
             meta == SetTail(old(meta), pageType, blk) && dirty == old(dirty) + {blk} &&
             pages == NewTailPages(old(pages), tail, blk, pageType)
    {
      var tail := TailOf(meta, pageType);
      var free := FreeSpace(pages[tail]);
      if pageType == ART_LEAF_PAGE {
        free := free * thrNum / thrDen;
      }
      if free > MaxAlign(itemSize) {
        TailRoom(pages[tail], pageType, itemSize, thrNum, thrDen);
        return tail;
      }
      NewTailEffect(pages, numAllocated, meta, pageType);
      blk := numAllocated;
      numAllocated := numAllocated + 1;
      pages := NewTailPages(pages, tail, blk, pageType);
      dirty := dirty + {blk};
      meta := SetTail(meta, pageType, blk);
    }

    /**
     * `_page_add_node`: the node goes into a new slot of block blk when it
     * fits (offset 0 otherwise, and the slot set is unchanged); the page is
     * marked dirty and its uint16 total counter grows either way.
     */
    method PageAddNode(blk: nat, n: Node) returns (r: Iptr)
      requires Valid() && blk in pages && WellFormed(n)
      requires n.Leaf? ==> !IptrValid(n.last)
      modifies this
      ensures Valid()
      ensures pages == old(pages)[blk := Counted(AddItem(old(pages)[blk], n).0)]
      ensures dirty == old(dirty) + {blk} && numAllocated == old(numAllocated) && meta == old(meta) && nTuples == old(nTuples)
      ensures r.blk == blk && (IptrValid(r) <==> SizeOfItemIdData + MaxAlign(NodeSize(n)) <= old(pages)[blk].gap)
      ensures IptrValid(r) ==> NodeAt(old(pages), r).None? && NodeAt(pages, r) == Some(n)
      ensures forall q :: q != r ==> NodeAt(pages, q) == NodeAt(old(pages), q)
      ensures Contents() == old(Contents()) + (if IptrValid(r) then SlotPairs(Some(n)) else multiset{})
    {
      AddNodeEffect(pages, numAllocated, meta, blk, n);
      var added := AddItem(pages[blk], n);
      pages := pages[blk := Counted(added.0)];
      dirty := dirty + {blk};
      r := Iptr(blk, added.1);
    }

    /**
     * `_page_update_node`: the node at r is rewritten with n by
     * PageIndexTupleOverwrite and the page is marked dirty. Slot r must
     * hold a tuple (the primitive raises an error otherwise) and n must
     * fit in that tuple's space and the gap.
     */
    method PageUpdateNode(r: Iptr, n: Node)
      requires Valid() && UpdateOk(pages, r, n)
      modifies this
      ensures Valid()
      ensures pages == old(pages)[r.blk := Overwrite(old(pages)[r.blk], r.off, n).value]
      ensures dirty == old(dirty) + {r.blk} && numAllocated == old(numAllocated) && meta == old(meta) && nTuples == old(nTuples)
      ensures NodeAt(pages, r) == Some(n) && forall q :: q != r ==> NodeAt(pages, q) == NodeAt(old(pages), q)
      ensures Contents() + SlotPairs(old(NodeAt(pages, r))) == old(Contents()) + SlotPairs(Some(n))
    {
      UpdateNodeEffect(pages, numAllocated, meta, r, n);
      pages := pages[r.blk := Overwrite(pages[r.blk], r.off, n).value];
      dirty := dirty + {r.blk};
    }

    /**
     * `_add_leaf`: a leaf with the key and one locator on a leaf page with
     * room for it; the pairs grow by exactly (key, tid).
     */
    method AddLeaf(key: seq<byte>, tid: Iptr) returns (r: Iptr)
      requires Valid() && |key| <= MAX_LEAF_KEY_LEN
      modifies this
      ensures Valid() && nTuples == old(nTuples)
      ensures IptrValid(r) && NodeAt(old(pages), r).None? && NodeAt(pages, r) == Some(NewLeaf(key, tid))
      ensures forall q :: q != r ==> NodeAt(pages, q) == NodeAt(old(pages), q)
      ensures Contents() == old(Contents()) + multiset{(key, tid)}
    {
      var leaf := NewLeaf(key, tid);
      assert SizeOfItemIdData + MaxAlign(NodeSize(leaf)) <= EmptyGap by {
        MaxLeafKeyTight();
        MaxAlignMono(NodeSize(leaf), SIZEOF_LEAF + MAX_LEAF_KEY_LEN + SIZEOF_ITEM_POINTER);
      }
      assert WellFormed(leaf) && !IptrValid(leaf.last);
      NewLeafPairs(key, tid);
      var blk := GetPageWithFreeSpace(ART_LEAF_PAGE, NodeSize(leaf));
      r := PageAddNode(blk, leaf);
    }
    /** The in-place branch of `_update_leaf_item`: the tail leaf t takes tid as its last locator. */
    method AppendToLeaf(t: Iptr, tid: Iptr)
      requires Valid() && NodeAt(pages, t).Some? && NodeAt(pages, t).value.Leaf?
      requires FreeSpace(pages[t.blk]) > MaxAlign(SIZEOF_ITEM_POINTER)
      modifies this
      ensures Valid() && nTuples == old(nTuples) && numAllocated == old(numAllocated) && meta == old(meta)
      ensures dirty == old(dirty) + {t.blk}
      ensures NodeAt(pages, t) == Some(AppendItem(old(NodeAt(pages, t)).value, tid))
      ensures forall q :: q != t ==> NodeAt(pages, q) == NodeAt(old(pages), q)
      ensures Contents() == old(Contents()) + multiset{(old(NodeAt(pages, t)).value.key, tid)}
    {
      var l := NodeAt(pages, t).value;
      AppendFits(pages, numAllocated, meta, t, tid);
      PageUpdateNode(t, AppendItem(l, tid));
      AppendPairs(l, tid);
      Rebalance(Contents(), old(Contents()), SlotPairs(Some(l)), SlotPairs(Some(AppendItem(l, tid))), multiset{(l.key, tid)});
    }

    /**
     * The chaining branch of `_update_leaf_item`: a new one-locator leaf
     * is linked as the next leaf of the tail t, written back, and then
     * made head's last leaf (both links on one leaf when t is head).
     */
    method ChainNewLeaf(head: Iptr, t: Iptr, tid: Iptr) returns (ghost nl: Iptr)
      requires Valid() && NodeAt(pages, head).Some? && NodeAt(pages, head).value.Leaf?
      requires |NodeAt(pages, head).value.key| <= MAX_LEAF_KEY_LEN
      requires t == (if IptrValid(NodeAt(pages, head).value.last) then NodeAt(pages, head).value.last else head)
      requires LeafWithKey(pages, t, NodeAt(pages, head).value.key) && !IptrValid(NodeAt(pages, t).value.last)
      modifies this
      ensures Valid() && nTuples == old(nTuples)
      ensures LeafUpdated(old(pages), pages, head, tid, Some(nl))
      ensures Contents() == old(Contents()) + multiset{(old(NodeAt(pages, head)).value.key, tid)}
    {
      var h := NodeAt(pages, head).value;
      var tl := NodeAt(pages, t).value;
      ghost var p0 := pages;
      var r := AddLeaf(h.key, tid);
      nl := r;
      ghost var p1 := pages;
      ghost var c1 := Contents();
      SameSizeFits(pages, numAllocated, meta, t, tl.(next := r));
      PageUpdateNode(t, tl.(next := r));
      AppendPairs(tl, r);
      Rebalance(Contents(), c1, SlotPairs(Some(tl)), SlotPairs(Some(tl)), multiset{});
      ghost var c2 := Contents();
      ghost var p2 := pages;
      var hl := NodeAt(pages, head).value;
      assert hl == if t == head then tl.(next := r) else h;
      assert NodeAt(pages, r) == Some(NewLeaf(h.key, tid)) && hl.key == h.key;
      SameSizeFits(pages, numAllocated, meta, head, hl.(last := r));
      PageUpdateNode(head, hl.(last := r));
      AppendPairs(hl, r);
      Rebalance(Contents(), c2, SlotPairs(Some(hl)), SlotPairs(Some(hl)), multiset{});
      ChainedShape(p0, p1, p2, pages, head, t, tid, r);
    }

    /**
     * `_update_leaf_item`: append tid to the chain headed at head. The
     * loop follows last links to the tail; where the tail itself has a
     * set last link the model stops without writing.
     */
    method UpdateLeafItem(head: Iptr, tid: Iptr) returns (out: Outcome, ghost chained: Option<Iptr>)
      requires Valid() && NodeAt(pages, head).Some? && NodeAt(pages, head).value.Leaf?
      requires |NodeAt(pages, head).value.key| <= MAX_LEAF_KEY_LEN
      modifies this
      ensures Valid() && nTuples == old(nTuples)
      ensures out.Stuck? <==> ChainTail(old(pages), head).None?
      ensures out.Stuck? ==> unchanged(this)
      ensures out.Done? ==> LeafUpdated(old(pages), pages, head, tid, chained)
      ensures out.Done? ==> (chained.None? <==> FreeSpace(old(pages)[ChainTail(old(pages), head).value.blk]) > MaxAlign(SIZEOF_ITEM_POINTER))
      ensures out.Done? ==> Contents() == old(Contents()) + multiset{(old(NodeAt(pages, head)).value.key, tid)}
    {
      var h := NodeAt(pages, head).value;
      var t := head;
      var leaf := h;
      var hops := 0;
      while IptrValid(leaf.last)
        invariant unchanged(this)
        invariant hops <= 1 && NodeAt(pages, t) == Some(leaf) && leaf.Leaf? && leaf.key == h.key
        invariant hops == 0 ==> t == head && leaf == h
        invariant hops == 1 ==> IptrValid(h.last) && t == h.last
        decreases 1 - hops
      {
        if hops == 1 {
          return Stuck, None;
        }
        LastLink(pages, head);
        t := leaf.last;
        leaf := NodeAt(pages, t).value;
        hops := 1;
      }
      if FreeSpace(pages[t.blk]) > MaxAlign(SIZEOF_ITEM_POINTER) {
        AppendToLeaf(t, tid);
        chained := None;
      } else {
        var nl := ChainNewLeaf(head, t, tid);
        chained := Some(nl);
      }
      out := Done;
    }
    /**
     * `_page_replace_node` for a node that grew into g. When the exact
     * free space of its page covers the aligned growth, g overwrites the
     * old node in place (and, unlike the source, the page is marked
     * dirty). Otherwise the old tuple is deleted without compaction and
     * counted on the page, g goes to a node page with room, and the
     * parent's child reference for pkey is redirected to it.
     */
    method PageReplaceNode(r: Iptr, oldSize: nat, g: Node, parent: Iptr, pkey: byte) returns (moved: Option<Iptr>)
      requires Valid() && NodeAt(pages, r).Some? && !NodeAt(pages, r).value.Leaf?
      requires oldSize == NodeSize(NodeAt(pages, r).value)
      requires WellFormed(g) && Tag(g) == Tag(NodeAt(pages, r).value) + 1
      requires parent != r && NodeAt(pages, parent).Some? && !NodeAt(pages, parent).value.Leaf?
      requires pkey in Pairs(NodeAt(pages, parent).value)
      modifies this
      ensures Valid() && nTuples == old(nTuples) && Contents() == old(Contents())
      ensures moved.None? <==> ExactFreeSpace(old(pages)[r.blk]) >= MaxAlign(NodeSize(g) - oldSize)
      ensures moved.None? ==> NodeAt(pages, r) == Some(g) && dirty == old(dirty) + {r.blk} &&
                              forall q :: q != r ==> NodeAt(pages, q) == NodeAt(old(pages), q)
      ensures moved.Some? ==>
                var m := moved.value;
                && (m == r || NodeAt(old(pages), m).None?) && m != parent
                && NodeAt(pages, m) == Some(g) && (m != r ==> NodeAt(pages, r).None?)
                && Relinked(old(NodeAt(pages, parent)).value, NodeAt(pages, parent), pkey, m)
                && forall q :: q != r && q != m && q != parent ==> NodeAt(pages, q) == NodeAt(old(pages), q)
    {
      if ExactFreeSpace(pages[r.blk]) >= MaxAlign(NodeSize(g) - oldSize) {
        GrownFits(pages, numAllocated, meta, r, g);
        ghost var n := NodeAt(pages, r).value;
        PageUpdateNode(r, g);
        NoPairsEither(Contents(), old(Contents()), n, g);
        return None;
      }
      DeleteNode(r, oldSize);
      var m := AddRelinked(g, parent, pkey);
      moved := Some(m);
    }

    /** The delete half of the moving branch: the old tuple is freed without compaction and counted. */
    method DeleteNode(r: Iptr, oldSize: nat)
      requires Valid() && NodeAt(pages, r).Some? && !NodeAt(pages, r).value.Leaf? && r != RootIptr
      requires r.blk in pages && Accounted(pages[r.blk]) && HasItem(pages[r.blk], r.off)
      modifies this
      ensures Valid() && nTuples == old(nTuples) && Contents() == old(Contents())
      ensures pages == old(pages)[r.blk := CountedDelete(DeleteNoCompact(old(pages)[r.blk], r.off).value, oldSize)]
      ensures dirty == old(dirty) + {r.blk} && numAllocated == old(numAllocated) && meta == old(meta)
      ensures NodeAt(pages, r).None? && forall q :: q != r ==> NodeAt(pages, q) == NodeAt(old(pages), q)
    {
      DeleteNodeEffect(pages, numAllocated, meta, r, oldSize);
      pages := pages[r.blk := CountedDelete(DeleteNoCompact(pages[r.blk], r.off).value, oldSize)];
      dirty := dirty + {r.blk};
    }

    /**
     * The add half of the moving branch: g goes to a node page with room,
     * and the parent, read back from its page, gets its child reference
     * for pkey redirected to g's new slot and is rewritten.
     */
    method AddRelinked(g: Node, parent: Iptr, pkey: byte) returns (m: Iptr)
      requires Valid() && WellFormed(g) && !g.Leaf?
      requires NodeAt(pages, parent).Some? && !NodeAt(pages, parent).value.Leaf?
      requires pkey in Pairs(NodeAt(pages, parent).value)
      modifies this
      ensures Valid() && nTuples == old(nTuples) && Contents() == old(Contents())
      ensures NodeAt(old(pages), m).None? && m != parent && NodeAt(pages, m) == Some(g)
      ensures Relinked(old(NodeAt(pages, parent)).value, NodeAt(pages, parent), pkey, m)
      ensures forall q :: q != m && q != parent ==> NodeAt(pages, q) == NodeAt(old(pages), q)
    {
      var blk := GetPageWithFreeSpace(ART_NODE_PAGE, NodeSize(g));
      ghost var c1 := Contents();
      m := PageAddNode(blk, g);
      NoPairs(c1, g);
      ghost var c2 := Contents();
      var pn := NodeAt(pages, parent).value;
      var pn2 := ReplaceChild(pn, pkey, m);
      SameSizeFits(pages, numAllocated, meta, parent, pn2.value);
      PageUpdateNode(parent, pn2.value);
      NoPairsEither(Contents(), c2, pn, pn2.value);
    }

    /**
     * The in-place branch of `_page_replace_node` as written: the grown
     * node overwrites the old one, and the page is not marked dirty.
     */
    method ReplaceInPlaceAsWritten(r: Iptr, g: Node)
      requires Valid() && UpdateOk(pages, r, g)
      modifies this
      ensures Valid()
      ensures pages == old(pages)[r.blk := Overwrite(old(pages)[r.blk], r.off, g).value]
      ensures NodeAt(pages, r) == Some(g) && dirty == old(dirty)
    {
      UpdateNodeEffect(pages, numAllocated, meta, r, g);
      pages := pages[r.blk := Overwrite(pages[r.blk], r.off, g).value];
    }
    /**
     * The common tail of both splits: a new leaf for t, a Node4 with
     * header h holding r under b1 and the new leaf under b2, stored on a
     * node page, and the parent's child under pkey pointed at it.
     */
    method HangSplit(h: Header, b1: byte, r: Iptr, b2: byte, t: ArtTuple, parent: Iptr, pkey: byte)
      returns (n4r: Iptr, n4: Node, lf: Iptr)
      requires Valid() && |t.key| <= MAX_LEAF_KEY_LEN && HeaderShaped(h) && h.numChildren == 0 && b1 != b2
      requires NodeAt(pages, r).Some? && r != parent
      requires NodeAt(pages, parent).Some? && !NodeAt(pages, parent).value.Leaf? && pkey in Pairs(NodeAt(pages, parent).value)
      modifies this
      ensures Valid() && nTuples == old(nTuples) && Contents() == old(Contents()) + multiset{(t.key, t.iptr)}
      ensures NodeAt(pages, r) == old(NodeAt(pages, r)) && NodeAt(pages, lf) == Some(NewLeaf(t.key, t.iptr))
      ensures NodeAt(pages, n4r) == Some(n4) && n4.Node4? && WellFormed(n4) && n4.hdr == h.(numChildren := 2)
      ensures Pairs(n4) == map[b1 := r, b2 := lf]
      ensures Relinked(old(NodeAt(pages, parent)).value, NodeAt(pages, parent), pkey, n4r)
    {
      assert IptrValid(r);
      lf := AddLeaf(t.key, t.iptr);
      assert r != lf && parent != lf;
      n4 := TwoChildNode4(h, b1, r, b2, lf);
      n4r := AddRelinked(n4, parent, pkey);
    }

    /**
     * The leaf case of `_node_insert_recursive` for a different key: a new
     * leaf, and a Node4 whose prefix is the keys' common run from depth
     * and whose two children are the old leaf and the new one under their
     * split bytes, hung from the parent in the old leaf's place. A split
     * byte past a leaf's data, or the same byte for both, is Stuck.
     */
    method SplitLeaf(r: Iptr, parent: Iptr, depth: nat, t: ArtTuple) returns (out: Outcome, n4r: Iptr, n4: Node, nl: Iptr)
      requires Valid() && |t.key| <= MAX_LEAF_KEY_LEN && ParentOk(pages, parent, r, t.key, depth)
      requires NodeAt(pages, r).Some? && NodeAt(pages, r).value.Leaf? && NodeAt(pages, r).value.key != t.key
      modifies this
      ensures Valid() && nTuples == old(nTuples)
      ensures var l := old(NodeAt(pages, r)).value;
        && (out.Stuck? <==> SplitBlocked(l, t.key, t.iptr, depth))
        && (out.Stuck? ==> unchanged(this))
        && (out.Done? ==>
              && Contents() == old(Contents()) + multiset{(t.key, t.iptr)}
              && NodeAt(pages, r) == old(NodeAt(pages, r)) && NodeAt(pages, nl) == Some(NewLeaf(t.key, t.iptr))
              && NodeAt(pages, n4r) == Some(n4) && LeafSplitNode(n4, l, t.key, t.iptr, depth, r, nl)
              && Relinked(old(NodeAt(pages, parent)).value, NodeAt(pages, parent), t.key[depth - 1], n4r))
    {
      var leaf := NodeAt(pages, r).value;
      var lcp := LongestCommonPrefix(leaf.key, t.key, depth);
      var b1, b2 := DataByte(leaf.key, leaf.items, depth + lcp), DataByte(t.key, [t.iptr], depth + lcp);
      SplitBytesAt(leaf, t.key, t.iptr, depth, lcp, b1, b2);
      if b1.None? || b2.None? || b1 == b2 {
        return Stuck, r, leaf, r;
      }
      var h := SplitHeader(lcp, t.key[depth..], ZeroIptr);
      n4r, n4, nl := HangSplit(h, b1.value, r, b2.value, t, parent, t.key[depth - 1]);
      out := Done;
    }

    /**
     * The prefix case of `_node_insert_recursive` when the key leaves the
     * node's prefix at offset pd: the old node keeps the bytes after pd,
     * and a Node4 holding the first pd bytes takes its place under the
     * parent, with the old node and a new leaf as its children. Reading
     * past either key, a cyclic parent link, or a corrupt tree whose split
     * byte equals the key's is not modelled: Stuck.
     */
    method SplitPrefix(r: Iptr, parent: Iptr, depth: nat, t: ArtTuple, pd: nat)
      returns (out: Outcome, n4r: Iptr, n4: Node, lf: Iptr)
      requires Valid() && |t.key| <= MAX_LEAF_KEY_LEN && ParentOk(pages, parent, r, t.key, depth)
      requires NodeAt(pages, r).Some? && !NodeAt(pages, r).value.Leaf? && pd < NodeAt(pages, r).value.hdr.prefixLen as nat
      modifies this
      ensures Valid() && nTuples == old(nTuples)
      ensures out.Stuck? <==> PrefixSplitBlocked(old(pages), old(NodeAt(pages, r)).value, parent == r, depth, pd, t.key)
      ensures var n := old(NodeAt(pages, r)).value;
        var plan := PrefixPlan(old(pages), n, depth, pd);
        && (out.Stuck? ==> unchanged(this))
        && (out.Done? ==>
              && Contents() == old(Contents()) + multiset{(t.key, t.iptr)}
              && NodeAt(pages, r) == Some(n.(hdr := plan.value.0)) && NodeAt(pages, lf) == Some(NewLeaf(t.key, t.iptr))
              && NodeAt(pages, n4r) == Some(n4) && PrefixSplitNode(n4, n.hdr, pd, r, plan.value.1, t.key[depth + pd], lf)
              && Relinked(old(NodeAt(pages, parent)).value, NodeAt(pages, parent), t.key[depth - 1], n4r))
    {
      var n := NodeAt(pages, r).value;
      if parent == r || depth + pd >= |t.key| {
        return Stuck, r, n, r;
      }
      var plan := PlanPrefixSplit(pages, n, depth, pd);
      if plan.None? || plan.value.1 == t.key[depth + pd] {
        return Stuck, r, n, r;
      }
      var nh, b1, b2 := plan.value.0, plan.value.1, t.key[depth + pd];
      var h4 := SplitHeader(pd, n.hdr.prefix, r);
      var n2 := n.(hdr := nh);
      assert IptrValid(r);
      NewHeaderFits(pages, numAllocated, meta, r, nh);
      ghost var c0 := Contents();
      PageUpdateNode(r, n2);
      NoPairsEither(Contents(), c0, n, n2);
      n4r, n4, lf := HangSplit(h4, b1, r, b2, t, parent, t.key[depth - 1]);
      out := Done;
    }
    /**
     * `_node_insert_recursive`: from node r, reached from parent under the
     * key byte before depth, place t. A leaf with t's key takes t's
     * locator; another leaf is split; a prefix the key leaves is split;
     * otherwise the descent goes on below the prefix. Reads the code
     * leaves undefined (a dangling locator, a key byte past the end, a
     * cyclic store) stop the model Stuck before any write.
     */
    method InsertRec(r: Iptr, parent: Option<Iptr>, depth: nat, t: ArtTuple) returns (out: Outcome)
      requires Valid() && |t.key| <= MAX_LEAF_KEY_LEN && Descent(pages, r, parent, t.key, depth)
      modifies this
      decreases |t.key| - depth, 2
      ensures Valid() && nTuples == old(nTuples)
      ensures out.Stuck? <==> Blocked(old(pages), r, parent, depth, t.key, t.iptr)
      ensures out.Stuck? ==> unchanged(this)
      ensures out.Done? ==> Contents() == old(Contents()) + multiset{(t.key, t.iptr)}
    {
      if NodeAt(pages, r).None? {
        return Stuck;
      }
      var n := NodeAt(pages, r).value;
      if n.Leaf? {
        out := InsertAtLeaf(r, parent, depth, t);
      } else if n.hdr.prefixLen != 0 {
        out := InsertPastPrefix(r, parent, depth, t);
      } else if depth < |t.key| {
        out := InsertBelow(r, parent, depth, depth, t);
      } else {
        out := Stuck;
      }
    }

    /** The leaf case: the same key takes another locator, a different key splits the leaf. */
    method InsertAtLeaf(r: Iptr, parent: Option<Iptr>, depth: nat, t: ArtTuple) returns (out: Outcome)
      requires Valid() && |t.key| <= MAX_LEAF_KEY_LEN && Descent(pages, r, parent, t.key, depth)
      requires NodeAt(pages, r).Some? && NodeAt(pages, r).value.Leaf?
      modifies this
      ensures Valid() && nTuples == old(nTuples)
      ensures out.Stuck? <==> Blocked(old(pages), r, parent, depth, t.key, t.iptr)
      ensures out.Stuck? ==> unchanged(this)
      ensures out.Done? ==> Contents() == old(Contents()) + multiset{(t.key, t.iptr)}
    {
      var n := NodeAt(pages, r).value;
      if LeafMatches(n.key, t.key) == 0 {
        ghost var chained;
        out, chained := UpdateLeafItem(r, t.iptr);
      } else {
        var n4r, n4, nl;
        out, n4r, n4, nl := SplitLeaf(r, parent.value, depth, t);
      }
    }

    /**
     * The prefix case: `_art_prefix_mismatch` against the node's prefix,
     * then a split inside it or the descent past it (with the corrected
     * step of PrefixStep).
     */
    method InsertPastPrefix(r: Iptr, parent: Option<Iptr>, depth: nat, t: ArtTuple) returns (out: Outcome)
      requires Valid() && |t.key| <= MAX_LEAF_KEY_LEN && Descent(pages, r, parent, t.key, depth)
      requires NodeAt(pages, r).Some? && !NodeAt(pages, r).value.Leaf? && NodeAt(pages, r).value.hdr.prefixLen != 0
      modifies this
      decreases |t.key| - depth, 1
      ensures Valid() && nTuples == old(nTuples)
      ensures out.Stuck? <==> PrefixBlocked(old(pages), r, parent, depth, t.key, t.iptr)
      ensures out.Stuck? ==> unchanged(this)
      ensures out.Done? ==> Contents() == old(Contents()) + multiset{(t.key, t.iptr)}
    {
      var n := NodeAt(pages, r).value;
      var mm := PrefixMismatch(pages, n, t.key, depth);
      if mm.None? {
        BlockedNoMismatch(pages, r, n, parent, depth, t.key, t.iptr);
        return Stuck;
      }
      var step := PrefixStep(mm.value, n.hdr.prefixLen as nat);
      if step.Some? {
        BlockedAtSplit(pages, r, n, parent, depth, t.key, t.iptr, step.value);
        assert parent == Some(r) <==> parent.value == r;
        var n4r, n4, lf;
        out, n4r, n4, lf := SplitPrefix(r, parent.value, depth, t, step.value);
      } else {
        var d := depth + n.hdr.prefixLen as nat;
        if d < |t.key| {
          BlockedPastPrefix(pages, r, n, parent, depth, t.key, t.iptr, mm.value);
          out := InsertBelow(r, parent, d, depth, t);
        } else {
          BlockedKeyEndsInPrefix(pages, r, n, parent, depth, t.key, t.iptr, mm.value);
          out := Stuck;
        }
      }
    }

    /**
     * The search part of `_node_insert_recursive` at internal node r,
     * entered at depth d0 and past its prefix at depth: follow the child
     * for the key byte, or hang a new leaf under it, growing the node (and
     * moving it, relinking the parent) when it is full.
     */
    method InsertBelow(r: Iptr, parent: Option<Iptr>, depth: nat, d0: nat, t: ArtTuple) returns (out: Outcome)
      requires Valid() && |t.key| <= MAX_LEAF_KEY_LEN && Descent(pages, r, parent, t.key, d0)
      requires d0 <= depth < |t.key| && NodeAt(pages, r).Some? && !NodeAt(pages, r).value.Leaf?
      modifies this
      decreases |t.key| - depth, 0
      ensures out.Stuck? <==> BlockedBelow(old(pages), r, parent, depth, t.key, t.iptr)
      ensures out.Stuck? ==> unchanged(this)
      ensures out.Done? ==> Contents() == old(Contents()) + multiset{(t.key, t.iptr)}
      ensures nTuples == old(nTuples) && Valid()
    {
      var n := NodeAt(pages, r).value;
      var c := FindChildEqual(n, t.key[depth]);
      if c.Some? {
        ChildDescent(pages, r, n, t.key, depth, c.value);
        BlockedBelowAtChild(pages, r, n, parent, depth, t.key, t.iptr, c.value);
        out := InsertRec(c.value, Some(r), depth + 1, t);
        return;
      }
      ChildEqualIsPairs(n, t.key[depth]);
      BlockedBelowNoChild(pages, r, n, parent, depth, t.key, t.iptr);
      out := AddLeafBelow(r, parent, d0, t.key[depth], t);
    }

    /**
     * The new-leaf branch of the search part: the leaf, the child entry,
     * and the node rewritten or replaced. A full node that would have to
     * move is Stuck when there is no parent to relink, or the parent is
     * the node itself.
     */
    method AddLeafBelow(r: Iptr, parent: Option<Iptr>, d0: nat, b: byte, t: ArtTuple) returns (out: Outcome)
      requires Valid() && |t.key| <= MAX_LEAF_KEY_LEN && Descent(pages, r, parent, t.key, d0)
      requires NodeAt(pages, r).Some? && !NodeAt(pages, r).value.Leaf? && b !in Pairs(NodeAt(pages, r).value)
      modifies this
      ensures Valid() && nTuples == old(nTuples)
      ensures var n := old(NodeAt(pages, r)).value;
        out.Stuck? <==> !n.Node256? && n.hdr.numChildren as nat >= Capacity(n) && (parent.None? || parent == Some(r))
      ensures out.Stuck? ==> unchanged(this)
      ensures out.Done? ==> Contents() == old(Contents()) + multiset{(t.key, t.iptr)}
    {
      var n := NodeAt(pages, r).value;
      if !n.Node256? && n.hdr.numChildren as nat >= Capacity(n) && (parent.None? || parent.value == r) {
        return Stuck;
      }
      var lf := AddLeaf(t.key, t.iptr);
      assert r != lf && NodeAt(pages, r) == Some(n);
      var n2, g := AddChild(n, b, lf);
      if g.None? {
        SameSizeFits(pages, numAllocated, meta, r, n2);
        ghost var c0 := Contents();
        PageUpdateNode(r, n2);
        NoPairsEither(Contents(), c0, n, n2);
      } else {
        assert parent.value != lf;
        var moved := PageReplaceNode(r, NodeSize(n), g.value, parent.value, t.key[d0 - 1]);
      }
      out := Done;
    }

    /** `_node_insert`: the descent from the root node at depth 0. */
    method NodeInsert(t: ArtTuple) returns (out: Outcome)
      requires Valid() && |t.key| <= MAX_LEAF_KEY_LEN
      modifies this
      ensures Valid() && nTuples == old(nTuples)
      ensures out.Stuck? <==> Blocked(old(pages), RootIptr, None, 0, t.key, t.iptr)
      ensures out.Stuck? ==> unchanged(this)
      ensures out.Done? ==> Contents() == old(Contents()) + multiset{(t.key, t.iptr)}
    {
      out := InsertRec(RootIptr, None, 0, t);
    }

    /**
     * `_art_build_callback` for one heap tuple, with the corrected key
     * test: a key the test refuses is skipped; otherwise it is inserted
     * and the build's tuple count grows by one.
     */
    method BuildCallback(t: ArtTuple) returns (accepted: bool, out: Outcome)
      requires Valid()
      modifies this
      ensures Valid() && (accepted <==> Accepts(|t.key|))
      ensures accepted ==> (out.Stuck? <==> Blocked(old(pages), RootIptr, None, 0, t.key, t.iptr))
      ensures !accepted || out.Stuck? ==> unchanged(this)
      ensures accepted && out.Done? ==>
                Contents() == old(Contents()) + multiset{(t.key, t.iptr)} && nTuples == old(nTuples) + 1
    {
      if !Accepts(|t.key|) {
        return false, Stuck;
      }
      accepted := true;
      out := NodeInsert(t);
      if out.Done? {
        nTuples := nTuples + 1;
      }
    }

    /**
     * `artinsert` for one heap tuple, with the corrected key test: the
     * result is whether the key was taken.
     */
    method ArtInsertTuple(t: ArtTuple) returns (accepted: bool, out: Outcome)
      requires Valid()
      modifies this
      ensures Valid() && nTuples == old(nTuples) && (accepted <==> Accepts(|t.key|))
      ensures accepted ==> (out.Stuck? <==> Blocked(old(pages), RootIptr, None, 0, t.key, t.iptr))
      ensures !accepted || out.Stuck? ==> unchanged(this)
      ensures accepted && out.Done? ==> Contents() == old(Contents()) + multiset{(t.key, t.iptr)}
    {
      if !Accepts(|t.key|) {
        return false, Stuck;
      }
      accepted := true;
      out := NodeInsert(t);
    }
  }
}
