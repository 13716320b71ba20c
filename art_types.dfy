/**
 * Layouts and constants of the ART index (art.h): item pointers, the five
 * node variants, the data-page and metadata-page trailers, and the page
 * store every other module reads nodes from.
 */
module ArtTypes {

  datatype Option<T> = None | Some(value: T)

  /** An unsigned 8-bit value (uint8). */
  type byte = x: int | 0 <= x < 256

  /** An unsigned 16-bit value (uint16). */
  type u16 = x: int | 0 <= x < 0x1_0000

  const BLCKSZ: nat := 8192
  const InvalidBlockNumber: nat := 0xFFFF_FFFF

  /** MAXALIGN with an 8-byte maximum alignment. */
  function MaxAlign(n: nat): (r: nat)
    ensures r % 8 == 0 && n <= r < n + 8
  {
    (n + 7) / 8 * 8
  }

  // Reserved blocks and page kinds (art.h:28-34).
  const ART_METADATA_NODE_BLKNO: nat := 0
  const ART_ROOT_NODE_BLKNO: nat := 1
  const ART_LEAF_NODE_BLKNO: nat := 2
  const ART_ROOT_NODE_ITEM: nat := 1
  const ART_NODE_PAGE: byte := 1
  const ART_LEAF_PAGE: byte := 2

  /** The root node's locator: the first slot of the root block. */
  const RootIptr: Iptr := Iptr(ART_ROOT_NODE_BLKNO, ART_ROOT_NODE_ITEM as u16)
  const ART_CACHED_PAGES: nat := 8

  // Node type tags (art.h:83-89) and the inline prefix capacity (art.h:91).
  const NODE_LEAF: byte := 0
  const NODE_4: byte := 1
  const NODE_16: byte := 2
  const NODE_48: byte := 3
  const NODE_256: byte := 4
  const MAX_PREFIX_KEY_LEN: nat := 8

  /**
   * ItemPointerData: a block number and a 1-based line-pointer offset.
   * An item pointer is valid when its offset is not 0.
   */
  datatype Iptr = Iptr(blk: nat, off: u16)

  predicate IptrValid(p: Iptr) { p.off != 0 }

  /** The value zeroed memory holds. */
  const ZeroIptr: Iptr := Iptr(0, 0)

  /** The value ItemPointerSetInvalid stores. */
  const InvalidIptr: Iptr := Iptr(InvalidBlockNumber, 0)

  /** ArtNodeHeader: what every internal node starts with (art.h:93-100). */
  datatype Header = Header(parent: Iptr, numChildren: byte, prefixLen: byte, prefix: seq<byte>)

  /**
   * The five node variants (art.h:102-138). A leaf's data area holds its
   * key followed by its locators; here the two parts are separate fields.
   */
  datatype Node =
    | Leaf(parent: Iptr, next: Iptr, last: Iptr, key: seq<byte>, items: seq<Iptr>)
    | Node4(hdr: Header, keys: seq<byte>, children: seq<Iptr>)
    | Node16(hdr: Header, keys: seq<byte>, children: seq<Iptr>)
    | Node48(hdr: Header, keys: seq<byte>, children: seq<Iptr>)
    | Node256(hdr: Header, children: seq<Iptr>)

  /**
   * The six bytes of an ItemPointerData as a little-endian machine lays
   * them out: bi_hi and bi_lo of the 32-bit block number, then ip_posid.
   */
  function IptrBytes(p: Iptr): (r: seq<byte>)
    ensures |r| == 6
  {
    var hi, lo := p.blk / 0x1_0000 % 0x1_0000, p.blk % 0x1_0000;
    [hi % 256, hi / 256, lo % 256, lo / 256, p.off % 256, p.off / 256]
  }

  /** Reads an ItemPointerData back from the six bytes of its layout. */
  function IptrOfBytes(b: seq<byte>): Iptr
    requires |b| == 6
  {
    var w0, w1, w2 := b[0] as int + 256 * b[1] as int, b[2] as int + 256 * b[3] as int, b[4] as int + 256 * b[5] as int;
    Iptr(w0 * 0x1_0000 + w1, w2 as u16)
  }

  /** A locator with a 32-bit block number survives its byte layout. */
  lemma IptrBytesRoundTrip(p: Iptr)
    requires p.blk < 0x1_0000_0000
    ensures IptrOfBytes(IptrBytes(p)) == p
  {
    var hi, lo := p.blk / 0x1_0000 % 0x1_0000, p.blk % 0x1_0000;
    assert hi % 256 + 256 * (hi / 256) == hi;
    assert lo % 256 + 256 * (lo / 256) == lo;
    assert p.off % 256 + 256 * (p.off / 256) == p.off as int;
    assert hi == p.blk / 0x1_0000;
  }

  /**
   * Byte i of a leaf's data array, which holds the key and then its
   * locators back to back (art.h:102-110); None past the array's end.
   */
  function DataByte(key: seq<byte>, items: seq<Iptr>, i: nat): (r: Option<byte>)
    ensures i < |key| ==> r == Some(key[i])
    ensures r.Some? <==> i < |key| + 6 * |items|
    ensures |key| <= i < |key| + 6 * |items| ==>
              r == Some(IptrBytes(items[(i - |key|) / 6])[(i - |key|) % 6])
  {
    if i < |key| then Some(key[i])
    else if (i - |key|) / 6 < |items| then Some(IptrBytes(items[(i - |key|) / 6])[(i - |key|) % 6])
    else None
  }

  function Tag(n: Node): byte
  {
    match n
    case Leaf(_, _, _, _, _) => NODE_LEAF
    case Node4(_, _, _) => NODE_4
    case Node16(_, _, _) => NODE_16
    case Node48(_, _, _) => NODE_48
    case Node256(_, _) => NODE_256
  }

  predicate HeaderShaped(h: Header) { |h.prefix| == MAX_PREFIX_KEY_LEN }

  /** The fixed array lengths of each variant, and the uint16 leaf counters. */
  predicate Shaped(n: Node)
  {
    match n
    case Leaf(_, _, _, key, items) => |key| < 0x1_0000 && |items| < 0x1_0000
    case Node4(h, ks, cs) => HeaderShaped(h) && |ks| == 4 && |cs| == 4
    case Node16(h, ks, cs) => HeaderShaped(h) && |ks| == 16 && |cs| == 16
    case Node48(h, ks, cs) => HeaderShaped(h) && |ks| == 256 && |cs| == 48
    case Node256(h, cs) => HeaderShaped(h) && |cs| == 256
  }

  predicate StrictlySorted(s: seq<byte>)
  {
    forall i, j :: 0 <= i < j < |s| ==> s[i] < s[j]
  }

  predicate AllValid(cs: seq<Iptr>)
  {
    forall i :: 0 <= i < |cs| ==> IptrValid(cs[i])
  }

  /** Number of valid item pointers in a child array. */
  function CountValid(cs: seq<Iptr>): nat
  {
    if |cs| == 0 then 0
    else CountValid(cs[..|cs| - 1]) + (if IptrValid(cs[|cs| - 1]) then 1 else 0)
  }

  /** Number of nonzero entries in a key map. */
  function CountNonZero(ks: seq<byte>): nat
  {
    if |ks| == 0 then 0
    else CountNonZero(ks[..|ks| - 1]) + (if ks[|ks| - 1] != 0 then 1 else 0)
  }

  /** Node48's key map: every nonzero entry names a valid child slot. */
  predicate MapConsistent(ks: seq<byte>, cs: seq<Iptr>)
  {
    forall k :: 0 <= k < |ks| && ks[k] != 0 ==> ks[k] <= |cs| && IptrValid(cs[ks[k] - 1])
  }

  /** The key-map entry of byte k; named so that MapInjective fires only where a proof asks for it. */
  function MapEntry(ks: seq<byte>, k: nat): byte
    requires k < |ks|
  {
    ks[k]
  }

  /** Node48's key map: no two key bytes share a child slot. */
  predicate MapInjective(ks: seq<byte>)
  {
    forall k1, k2 :: 0 <= k1 < |ks| && 0 <= k2 < |ks| && MapEntry(ks, k1) != 0 && MapEntry(ks, k1) == MapEntry(ks, k2) ==> k1 == k2
  }

  /**
   * What the insertion code keeps true of every node it writes: the child
   * count is within the variant's capacity, Node4/16 keys are strictly
   * ascending over the occupied prefix, the count matches the valid child
   * slots (modulo 256 for Node256, whose uint8 count wraps when all 256
   * slots are used), and a Node48 key map names each valid slot once.
   */
  predicate WellFormed(n: Node)
  {
    Shaped(n) &&
    match n
    case Leaf(_, _, _, _, _) => true
    case Node4(h, ks, cs) =>
      h.numChildren <= 4 && StrictlySorted(ks[..h.numChildren]) && AllValid(cs[..h.numChildren])
    case Node16(h, ks, cs) =>
      h.numChildren <= 16 && StrictlySorted(ks[..h.numChildren]) && AllValid(cs[..h.numChildren])
    case Node48(h, ks, cs) =>
      h.numChildren <= 48 && CountValid(cs) == h.numChildren as nat && CountNonZero(ks) == h.numChildren as nat &&
      MapConsistent(ks, cs) && MapInjective(ks)
    case Node256(h, cs) => CountValid(cs) % 256 == h.numChildren as nat
  }

  function Min(a: int, b: int): int { if a < b then a else b }

  /** The key byte to child pairs of a Node4/16 prefix; the first occurrence of a byte wins. */
  function PairsOf(ks: seq<byte>, cs: seq<Iptr>): map<byte, Iptr>
    requires |ks| == |cs|
    decreases |ks|
  {
    if |ks| == 0 then map[] else PairsOf(ks[1..], cs[1..])[ks[0] := cs[0]]
  }

  /** The key byte to child reference pairs a node holds. */
  function Pairs(n: Node): map<byte, Iptr>
    requires Shaped(n)
  {
    match n
    case Leaf(_, _, _, _, _) => map[]
    case Node4(h, ks, cs) =>
      var m := Min(h.numChildren, 4); PairsOf(ks[..m], cs[..m])
    case Node16(h, ks, cs) =>
      var m := Min(h.numChildren, 16); PairsOf(ks[..m], cs[..m])
    case Node48(h, ks, cs) =>
      map k: byte | 0 <= k < 256 && ks[k] != 0 && ks[k] <= 48 :: cs[ks[k] - 1]
    case Node256(h, cs) =>
      map k: byte | 0 <= k < 256 && IptrValid(cs[k]) :: cs[k]
  }

  /** The special space of a data page (art.h:36-43). */
  datatype DataOpaque = DataOpaque(pageFlags: byte, nTotal: u16, nDeleted: u16,
                                   deletedItemSize: u16, rightLink: nat)

  datatype PageCacheSlot = PageCacheSlot(blkNum: nat, freeSpace: int)

  /** The special space of the metadata page (art.h:47-61). */
  datatype MetaOpaque = MetaOpaque(pageCache: seq<PageCacheSlot>, lastInternal: nat, lastLeaf: nat)

  /**
   * A page: a data page is its line-pointer slots (None for an unused line
   * pointer), the gap pd_upper - pd_lower between line pointers and tuple
   * data, and its trailer.
   */
  datatype Page =
    | DataPage(items: seq<Option<Node>>, gap: int, special: DataOpaque)
    | MetaPage(meta: MetaOpaque)

  /** The node an item pointer leads to, if any. */
  function NodeAt(pages: map<nat, Page>, r: Iptr): Option<Node>
  {
    if r.blk in pages && pages[r.blk].DataPage? && 1 <= r.off as int <= |pages[r.blk].items|
    then pages[r.blk].items[r.off - 1]
    else None
  }

  /** Every node stored in every data page of a store is well formed. */
  predicate StoreWellFormed(pages: map<nat, Page>)
  {
    forall b :: b in pages && pages[b].DataPage? ==>
      forall i :: 0 <= i < |pages[b].items| && pages[b].items[i].Some? ==> WellFormed(pages[b].items[i].value)
  }

  lemma NodeAtWellFormed(pages: map<nat, Page>, r: Iptr)
    requires StoreWellFormed(pages)
    ensures NodeAt(pages, r).Some? ==> WellFormed(NodeAt(pages, r).value)
  {
  }
}
