/**
 * Page initialisation and page-entry bookkeeping (art_pageops.c).
 *
 * A page entry is a heap object the index code holds per page it works
 * on: the block, the shared buffer (or none), the page image, a uint8
 * reference count and the dirty and copy flags. Entries are linked into a
 * page list. The buffer manager and the storage manager are outside the
 * index; their effect is modelled by the value BufferPool below, which
 * records the image of each block, the relation's length, the blocks
 * marked dirty and the pins held.
 */
module ArtPageOps {
  import opened ArtTypes
  import opened BufPage

  // ------------------------------------------------------------------
  // Page initialisation

  /** `_art_init_data_page`: an empty data page with a fresh trailer. */
  function InitDataPage(flags: byte): (p: Page)
    ensures Accounted(p) && p.items == [] && ExactFreeSpace(p) == EmptyGap
    ensures p.special.pageFlags == flags && p.special.rightLink == InvalidBlockNumber
    ensures p.special.nTotal == 0 && p.special.nDeleted == 0 && p.special.deletedItemSize == 0
  {
    DataPage([], EmptyGap, DataOpaque(flags, 0, 0, 0, InvalidBlockNumber))
  }

  /** The metadata trailer's page cache has ART_CACHED_PAGES slots. */
  predicate MetaShaped(m: MetaOpaque)
  {
    |m.pageCache| == ART_CACHED_PAGES
  }

  /** `_art_init_metadata_page`: tails at the reserved root and leaf blocks, a zeroed cache. */
  function InitMetadataPage(): (p: Page)
    ensures p.MetaPage? && MetaShaped(p.meta)
    ensures p.meta.lastInternal == ART_ROOT_NODE_BLKNO && p.meta.lastLeaf == ART_LEAF_NODE_BLKNO
    ensures forall i :: 0 <= i < ART_CACHED_PAGES ==> p.meta.pageCache[i] == PageCacheSlot(0, 0)
  {
    MetaPage(MetaOpaque(seq(ART_CACHED_PAGES, _ => PageCacheSlot(0, 0)), ART_ROOT_NODE_BLKNO, ART_LEAF_NODE_BLKNO))
  }

  /** `_art_update_metadata_page`: both tails and every cache slot come from md; nothing of the old trailer survives. */
  function UpdateMetadataPage(p: Page, md: MetaOpaque): (r: Page)
    requires p.MetaPage? && MetaShaped(md)
    ensures r.MetaPage? && MetaShaped(r.meta)
    ensures r.meta.lastInternal == md.lastInternal && r.meta.lastLeaf == md.lastLeaf
    ensures forall i :: 0 <= i < ART_CACHED_PAGES ==> r.meta.pageCache[i] == md.pageCache[i]
  {
    MetaPage(MetaOpaque(md.pageCache[..ART_CACHED_PAGES], md.lastInternal, md.lastLeaf))
  }

  /** Updating twice is updating with the second trailer: the update does not depend on the page. */
  lemma UpdateMetadataOverwrites(p: Page, md1: MetaOpaque, md2: MetaOpaque)
    requires p.MetaPage? && MetaShaped(md1) && MetaShaped(md2)
    ensures UpdateMetadataPage(UpdateMetadataPage(p, md1), md2) == UpdateMetadataPage(InitMetadataPage(), md2)
    ensures UpdateMetadataPage(InitMetadataPage(), md2).meta == md2
  {
    assert md2.pageCache[..ART_CACHED_PAGES] == md2.pageCache;
  }

  // ------------------------------------------------------------------
  // The buffer manager's state

  /**
   * What the index can observe of the buffer and storage managers: the
   * image of each block (for a pinned block, its shared buffer), the
   * relation's length in blocks, the blocks marked dirty, and the pins.
   */
  datatype BufferPool = BufferPool(blocks: map<nat, Page>, nblocks: nat, marked: set<nat>, pins: multiset<nat>)

  const InvalidBuffer: nat := 0

  /** The buffer ReadBuffer hands out for a block; 0 is InvalidBuffer. */
  function BufferOf(blk: nat): nat { blk + 1 }

  function BlockOf(buffer: nat): nat
    requires buffer != InvalidBuffer
  {
    buffer - 1
  }

  /** ReadBuffer: pin the block. */
  function Pin(bp: BufferPool, blk: nat): BufferPool
  {
    bp.(pins := bp.pins + multiset{blk})
  }

  /** MarkBufferDirty. */
  function MarkDirty(bp: BufferPool, blk: nat): BufferPool
  {
    bp.(marked := bp.marked + {blk})
  }

  /** UnlockReleaseBuffer: the buffer now holds the image the entry worked on, and one pin is dropped. */
  function UnlockRelease(bp: BufferPool, blk: nat, image: Page): BufferPool
  {
    bp.(blocks := bp.blocks[blk := image], pins := bp.pins - multiset{blk})
  }

  /** smgrextend: write the image as block blk, growing the relation to cover it. */
  function Extend(bp: BufferPool, blk: nat, image: Page): BufferPool
  {
    bp.(blocks := bp.blocks[blk := image], nblocks := if blk + 1 > bp.nblocks then blk + 1 else bp.nblocks)
  }

  // ------------------------------------------------------------------
  // Page entries and the page list

  class PageEntry {
    var blkNum: nat
    var buffer: nat
    var page: Page
    var refCount: byte
    var dirty: bool
    var isCopy: bool

    constructor (blkNum: nat, buffer: nat, page: Page, refCount: byte, dirty: bool, isCopy: bool)
      ensures this.blkNum == blkNum && this.buffer == buffer && this.page == page
      ensures this.refCount == refCount && this.dirty == dirty && this.isCopy == isCopy
    {
      this.blkNum := blkNum;
      this.buffer := buffer;
      this.page := page;
      this.refCount := refCount;
      this.dirty := dirty;
      this.isCopy := isCopy;
    }
  }

  /** No entry occurs twice. */
  predicate Distinct(s: seq<PageEntry>)
  {
    forall i, j :: 0 <= i < j < |s| ==> s[i] != s[j]
  }

  /** The dlist of page entries; a node is linked at most once. */
  class PageList {
    var entries: seq<PageEntry>

    constructor ()
      ensures entries == []
    {
      entries := [];
    }

    predicate Valid()
      reads this
    {
      Distinct(entries)
    }
  }

  /** The list without the entry x. */
  function Without(s: seq<PageEntry>, x: PageEntry): (r: seq<PageEntry>)
    ensures x !in r
    ensures forall i :: 0 <= i < |r| ==> r[i] in s
    ensures forall i :: 0 <= i < |s| && s[i] != x ==> s[i] in r
    ensures x in s ==> |r| < |s|
    ensures |r| <= |s|
  {
    if |s| == 0 then []
    else (if s[0] == x then [] else [s[0]]) + Without(s[1..], x)
  }

  /** dlist_delete keeps the list free of duplicates. */
  lemma DistinctCons(a: PageEntry, rest: seq<PageEntry>)
    requires a !in rest && Distinct(rest)
    ensures Distinct([a] + rest)
  {
    var r := [a] + rest;
    forall i, j | 0 <= i < j < |r|
      ensures r[i] != r[j]
    {
      assert r[j] == rest[j - 1];
      if i > 0 {
        assert r[i] == rest[i - 1];
      }
    }
  }

  lemma DistinctTail(s: seq<PageEntry>)
    requires |s| > 0 && Distinct(s)
    ensures Distinct(s[1..]) && s[0] !in s[1..]
  {
    forall i, j | 0 <= i < j < |s[1..]|
      ensures s[1..][i] != s[1..][j]
    {
      assert s[1..][i] == s[i + 1] && s[1..][j] == s[j + 1];
    }
  }

  lemma {:induction false} WithoutDistinct(s: seq<PageEntry>, x: PageEntry)
    requires Distinct(s)
    ensures Distinct(Without(s, x))
  {
    if |s| > 0 {
      DistinctTail(s);
      WithoutDistinct(s[1..], x);
      if s[0] != x {
        DistinctCons(s[0], Without(s[1..], x));
      }
    }
  }

  /**
   * `_art_page_release`: nothing happens to a null entry, to an entry
   * without a buffer (the memory build) or to a copy. The last reference
   * marks the buffer dirty if the entry is dirty, unlocks and releases
   * it, and unlinks the entry; otherwise the count drops by one (uint8).
   */
  method Release(bp: BufferPool, list: PageList, e: PageEntry?) returns (bp': BufferPool)
    requires e != null && e.buffer != InvalidBuffer && !e.isCopy && e.refCount == 1 ==> e in list.entries
    modifies list, e
    ensures old(list.Valid()) ==> list.Valid()
    ensures e == null ==> bp' == bp && unchanged(list)
    ensures e != null && (e.buffer == InvalidBuffer || e.isCopy) ==> bp' == bp && unchanged(list) && unchanged(e)
    ensures e != null && e.buffer != InvalidBuffer && !e.isCopy && old(e.refCount) == 1 ==>
              bp' == UnlockRelease(if e.dirty then MarkDirty(bp, BlockOf(e.buffer)) else bp, BlockOf(e.buffer), e.page) &&
              list.entries == Without(old(list.entries), e) && unchanged(e)
    ensures e != null && e.buffer != InvalidBuffer && !e.isCopy && old(e.refCount) != 1 ==>
              bp' == bp && unchanged(list) && e.refCount == (old(e.refCount) + 255) % 256 &&
              e.blkNum == old(e.blkNum) && e.buffer == old(e.buffer) && e.page == old(e.page) &&
              e.dirty == old(e.dirty) && e.isCopy == old(e.isCopy)
  {
    bp' := bp;
    if e == null || e.buffer == InvalidBuffer {
      return;
    }
    if e.isCopy {
      return;
    }
    if e.refCount == 1 {
      if e.dirty {
        bp' := MarkDirty(bp', BlockOf(e.buffer));
      }
      bp' := UnlockRelease(bp', BlockOf(e.buffer), e.page);
      if list.Valid() {
        WithoutDistinct(list.entries, e);
      }
      list.entries := Without(list.entries, e);
    } else {
      e.refCount := (e.refCount + 255) % 256;
    }
  }

  /** `_art_new_page`: a private, dirty, unbuffered page for the memory build. */
  method NewPage(flags: byte) returns (e: PageEntry)
    ensures fresh(e)
    ensures e.page == InitDataPage(flags) && e.dirty && e.buffer == InvalidBuffer
    ensures e.refCount == 1 && !e.isCopy && e.blkNum == 0
  {
    e := new PageEntry(0, InvalidBuffer, InitDataPage(flags), 1, true, false);
  }

  /** `_art_get_buffer`: extend the relation by one block, pin it and initialise it as a data page. */
  method GetBuffer(bp: BufferPool, flags: byte) returns (e: PageEntry, bp': BufferPool)
    ensures fresh(e)
    ensures e.blkNum == bp.nblocks && e.buffer == BufferOf(bp.nblocks) && e.page == InitDataPage(flags)
    ensures e.refCount == 1 && !e.isCopy && !e.dirty
    ensures bp' == Pin(bp.(nblocks := bp.nblocks + 1, blocks := bp.blocks[bp.nblocks := InitDataPage(flags)]), bp.nblocks)
  {
    var blk := bp.nblocks;
    bp' := Pin(bp.(nblocks := blk + 1, blocks := bp.blocks[blk := InitDataPage(flags)]), blk);
    e := new PageEntry(blk, BufferOf(blk), InitDataPage(flags), 1, false, false);
  }

  /** Index of the first entry of s for block blk, or |s| when there is none. */
  function FirstFor(s: seq<PageEntry>, blk: nat): (i: nat)
    reads s
    ensures i <= |s|
    ensures forall j :: 0 <= j < i ==> s[j].blkNum != blk
    ensures i < |s| ==> s[i].blkNum == blk
  {
    if |s| == 0 then 0
    else if s[0].blkNum == blk then 0
    else 1 + FirstFor(s[1..], blk)
  }

  /**
   * `_art_load_page`: an entry of the list for the block gains a
   * reference (uint8); otherwise a fresh entry with one reference is made
   * for the block's pinned buffer, which the caller links.
   */
  method LoadPage(bp: BufferPool, list: PageList, blk: nat) returns (e: PageEntry, isNew: bool, bp': BufferPool)
    requires FirstFor(list.entries, blk) == |list.entries| ==> blk in bp.blocks
    modifies list.entries
    ensures list.entries == old(list.entries)
    ensures isNew <==> old(FirstFor(list.entries, blk)) == |list.entries|
    ensures !isNew ==> e == list.entries[old(FirstFor(list.entries, blk))] && bp' == bp &&
                       e.refCount == (old(e.refCount) + 1) % 256 &&
                       e.blkNum == blk && e.buffer == old(e.buffer) && e.page == old(e.page) &&
                       e.dirty == old(e.dirty) && e.isCopy == old(e.isCopy)
    ensures isNew ==> fresh(e) && e.blkNum == blk && e.buffer == BufferOf(blk) && e.page == bp.blocks[blk] &&
                      e.refCount == 1 && !e.dirty && !e.isCopy && bp' == Pin(bp, blk)
    ensures forall x :: x in list.entries && x != e ==> unchanged(x)
  {
    var entries := list.entries;
    var i := 0;
    while i < |entries|
      invariant 0 <= i <= |entries|
      invariant forall j :: 0 <= j < i ==> entries[j].blkNum != blk
    {
      if entries[i].blkNum == blk {
        e := entries[i];
        assert FirstFor(entries, blk) == i by {
          FirstForAt(entries, blk, i);
        }
        e.refCount := (e.refCount + 1) % 256;
        isNew, bp' := false, bp;
        return;
      }
      i := i + 1;
    }
    FirstForAt(entries, blk, |entries|);
    bp' := Pin(bp, blk);
    e := new PageEntry(blk, BufferOf(blk), bp.blocks[blk], 1, false, false);
    isNew := true;
  }

  lemma {:induction false} FirstForAt(s: seq<PageEntry>, blk: nat, i: nat)
    requires i <= |s| && forall j :: 0 <= j < i ==> s[j].blkNum != blk
    requires i < |s| ==> s[i].blkNum == blk
    ensures FirstFor(s, blk) == i
  {
    if |s| > 0 && i > 0 {
      FirstForAt(s[1..], blk, i - 1);
    }
  }

  /** `_art_copy_page`: a private, clean image of the block; the pin it takes is given back. */
  method CopyPage(bp: BufferPool, blk: nat) returns (e: PageEntry, bp': BufferPool)
    requires blk in bp.blocks
    ensures fresh(e)
    ensures e.blkNum == blk && e.page == bp.blocks[blk] && !e.dirty && e.buffer == InvalidBuffer
    ensures e.refCount == 1 && e.isCopy
    ensures bp' == bp
  {
    var pinned := Pin(bp, blk);
    e := new PageEntry(blk, InvalidBuffer, pinned.blocks[blk], 1, false, true);
    bp' := pinned.(pins := pinned.pins - multiset{blk});
    assert bp'.pins == bp.pins;
  }

  // ------------------------------------------------------------------
  // Flushing

  /** An entry's fields, as the flush reads them. */
  datatype EntryView = EntryView(blk: nat, buffer: nat, page: Page, dirty: bool, isCopy: bool)

  function View(e: PageEntry): EntryView
    reads e
  {
    EntryView(e.blkNum, e.buffer, e.page, e.dirty, e.isCopy)
  }

  function Views(s: seq<PageEntry>): (r: seq<EntryView>)
    reads s
    ensures |r| == |s| && forall i :: 0 <= i < |s| ==> r[i] == View(s[i])
  {
    if |s| == 0 then [] else [View(s[0])] + Views(s[1..])
  }

  /** The block the flush of an entry acts on. */
  function Target(v: EntryView): nat
  {
    if v.buffer != InvalidBuffer then BlockOf(v.buffer) else v.blk
  }

  /** Whether flushing v marks its block dirty: a dirty buffered entry or a dirty copy. */
  predicate Marks(v: EntryView)
  {
    v.dirty && (v.buffer != InvalidBuffer || v.isCopy)
  }

  /** Whether flushing v writes its image to its block: all but a clean copy. */
  predicate Writes(v: EntryView)
  {
    !v.isCopy || v.buffer != InvalidBuffer || v.dirty
  }

  /**
   * The three cases of the flush loop: a buffered entry marks its buffer
   * if dirty and is unlocked; a new unbuffered page is appended to the
   * relation; a copy is written back through a buffer only if dirty.
   */
  function FlushOne(bp: BufferPool, v: EntryView): BufferPool
  {
    if v.buffer != InvalidBuffer then
      UnlockRelease(if v.dirty then MarkDirty(bp, BlockOf(v.buffer)) else bp, BlockOf(v.buffer), v.page)
    else if !v.isCopy then Extend(bp, v.blk, v.page)
    else if v.dirty then UnlockRelease(MarkDirty(Pin(bp, v.blk), v.blk), v.blk, v.page)
    else bp
  }

  function FlushAll(bp: BufferPool, vs: seq<EntryView>): BufferPool
  {
    if |vs| == 0 then bp else FlushOne(FlushAll(bp, vs[..|vs| - 1]), vs[|vs| - 1])
  }

  /** Flushing one more entry of the list flushes it after the earlier ones. */
  lemma FlushAllStep(bp: BufferPool, vs: seq<EntryView>, i: nat)
    requires i < |vs|
    ensures FlushAll(bp, vs[..i + 1]) == FlushOne(FlushAll(bp, vs[..i]), vs[i])
  {
    assert vs[..i + 1][..i] == vs[..i];
  }

  /** The body of the flush loop for one unlinked entry. */
  method FlushEntry(bp: BufferPool, pe: PageEntry) returns (bp': BufferPool)
    ensures bp' == FlushOne(bp, View(pe))
  {
    bp' := bp;
    if pe.buffer != InvalidBuffer {
      if pe.dirty {
        bp' := MarkDirty(bp', BlockOf(pe.buffer));
      }
      bp' := UnlockRelease(bp', BlockOf(pe.buffer), pe.page);
    } else if !pe.isCopy {
      bp' := Extend(bp', pe.blkNum, pe.page);
    } else if pe.isCopy {
      if pe.dirty {
        var pinned := Pin(bp', pe.blkNum);
        bp' := UnlockRelease(MarkDirty(pinned, pe.blkNum), pe.blkNum, pe.page);
      }
    }
  }

  /** `_art_flush_pages`: every entry is unlinked and flushed in list order. */
  method FlushPages(bp: BufferPool, list: PageList) returns (bp': BufferPool)
    modifies list`entries
    ensures list.entries == []
    ensures bp' == FlushAll(bp, old(Views(list.entries)))
  {
    var entries := list.entries;
    ghost var views := Views(entries);
    bp' := bp;
    var i := 0;
    while i < |entries|
      invariant 0 <= i <= |entries| && list.entries == entries[i..]
      invariant bp' == FlushAll(bp, views[..i])
    {
      var pe := entries[i];
      assert views[i] == View(pe);
      list.entries := list.entries[1..];
      FlushAllStep(bp, views, i);
      bp' := FlushEntry(bp', pe);
      i := i + 1;
    }
    assert views[..|entries|] == views;
  }

  /** One flush step marks exactly the block of an entry that marks. */
  lemma FlushOneMarked(bp: BufferPool, v: EntryView, b: nat)
    ensures b in FlushOne(bp, v).marked <==> b in bp.marked || (Target(v) == b && Marks(v))
  {
  }

  /** After a flush a block is marked exactly when it was before or some entry for it marks it. */
  lemma {:induction false} FlushMarked(bp: BufferPool, vs: seq<EntryView>, b: nat)
    ensures b in FlushAll(bp, vs).marked <==> b in bp.marked || exists i :: 0 <= i < |vs| && Target(vs[i]) == b && Marks(vs[i])
  {
    if |vs| > 0 {
      var init := vs[..|vs| - 1];
      var v := vs[|vs| - 1];
      FlushMarked(bp, init, b);
      FlushOneMarked(FlushAll(bp, init), v, b);
      if exists i :: 0 <= i < |vs| && Target(vs[i]) == b && Marks(vs[i]) {
        var i :| 0 <= i < |vs| && Target(vs[i]) == b && Marks(vs[i]);
        if i < |init| {
          assert init[i] == vs[i];
        }
      }
      if exists i :: 0 <= i < |init| && Target(init[i]) == b && Marks(init[i]) {
        var i :| 0 <= i < |init| && Target(init[i]) == b && Marks(init[i]);
        assert vs[i] == init[i];
      }
    }
  }

  /** One flush step changes only the image of an entry that writes, to the entry's page. */
  lemma FlushOneImage(bp: BufferPool, v: EntryView, b: nat)
    ensures Target(v) == b && Writes(v) ==> b in FlushOne(bp, v).blocks && FlushOne(bp, v).blocks[b] == v.page
    ensures Target(v) != b || !Writes(v) ==>
              (b in FlushOne(bp, v).blocks <==> b in bp.blocks) &&
              (b in bp.blocks ==> FlushOne(bp, v).blocks[b] == bp.blocks[b])
  {
  }

  /** A block no entry writes keeps its image, and the last entry that writes a block decides its image. */
  lemma {:induction false} FlushImages(bp: BufferPool, vs: seq<EntryView>, b: nat)
    ensures (forall i :: 0 <= i < |vs| ==> Target(vs[i]) != b || !Writes(vs[i])) ==>
              (b in FlushAll(bp, vs).blocks <==> b in bp.blocks) &&
              (b in bp.blocks ==> FlushAll(bp, vs).blocks[b] == bp.blocks[b])
    ensures |vs| > 0 && Target(vs[|vs| - 1]) == b && Writes(vs[|vs| - 1]) ==>
              b in FlushAll(bp, vs).blocks && FlushAll(bp, vs).blocks[b] == vs[|vs| - 1].page
  {
    if |vs| > 0 {
      var init := vs[..|vs| - 1];
      FlushOneImage(FlushAll(bp, init), vs[|vs| - 1], b);
      if forall i :: 0 <= i < |vs| ==> Target(vs[i]) != b || !Writes(vs[i]) {
        assert forall i :: 0 <= i < |init| ==> init[i] == vs[i];
        FlushImages(bp, init, b);
      }
    }
  }

  /** The buffered entries' blocks, one pin each. */
  function BufferedPins(vs: seq<EntryView>): multiset<nat>
  {
    if |vs| == 0 then multiset{}
    else BufferedPins(vs[..|vs| - 1]) + BufferedPin(vs[|vs| - 1])
  }

  function BufferedPin(v: EntryView): multiset<nat>
  {
    if v.buffer != InvalidBuffer then multiset{BlockOf(v.buffer)} else multiset{}
  }

  /** One flush step drops the entry's own pin; the write-back of a copy pins and unpins. */
  lemma FlushOnePins(bp: BufferPool, v: EntryView)
    ensures FlushOne(bp, v).pins == bp.pins - BufferedPin(v)
  {
    if v.buffer == InvalidBuffer && v.isCopy && v.dirty {
      assert (bp.pins + multiset{v.blk}) - multiset{v.blk} == bp.pins;
    }
  }

  /** A flush drops exactly the buffered entries' pins. */
  lemma {:induction false} FlushPins(bp: BufferPool, vs: seq<EntryView>)
    requires BufferedPins(vs) <= bp.pins
    ensures FlushAll(bp, vs).pins == bp.pins - BufferedPins(vs)
  {
    if |vs| > 0 {
      var init := vs[..|vs| - 1];
      var v := vs[|vs| - 1];
      assert BufferedPins(init) <= BufferedPins(vs);
      FlushPins(bp, init);
      FlushOnePins(FlushAll(bp, init), v);
    }
  }
}
