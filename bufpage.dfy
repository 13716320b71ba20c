/**
 * The PostgreSQL page primitives the index relies on, modelled on the
 * abstract layout: a data page is its line-pointer slots (None for an
 * unused line pointer) and the gap between the line-pointer array and the
 * tuple data. Each tuple takes MAXALIGN(size) bytes and each line pointer
 * 4, and the accounting below ties the gap to the slots.
 */
module BufPage {
  import opened ArtTypes
  import opened ArtUtils

  const SizeOfPageHeaderData: nat := 24
  const SizeOfItemIdData: nat := 4
  /** sizeof(ArtDataPageOpaqueData): flags, three uint16 counters, right link. */
  const SizeOfDataOpaque: nat := 12

  /** pd_upper - pd_lower on a data page PageInit has just set up. */
  const EmptyGap: nat := BLCKSZ - MaxAlign(SizeOfDataOpaque) - SizeOfPageHeaderData

  /** The longest key the index accepts is shorter than this (art_insert.c:19-21). */
  const ART_PAGE_SIZE: nat := BLCKSZ - MaxAlign(SizeOfPageHeaderData) - MaxAlign(SIZEOF_ITEM_POINTER) - MaxAlign(SizeOfDataOpaque)

  lemma PageConstants()
    ensures EmptyGap == 8152 && ART_PAGE_SIZE == 8144
  {
  }

  /** Bytes a slot takes: its line pointer and, if used, its aligned tuple. */
  function ItemSpace(s: Option<Node>): nat
  {
    SizeOfItemIdData + if s.Some? then MaxAlign(NodeSize(s.value)) else 0
  }

  function Used(items: seq<Option<Node>>): nat
  {
    if |items| == 0 then 0 else Used(items[..|items| - 1]) + ItemSpace(items[|items| - 1])
  }

  /** A data page whose gap is what its slots leave of an empty page. */
  predicate Accounted(p: Page)
  {
    p.DataPage? && p.gap >= 0 && p.gap + Used(p.items) == EmptyGap
  }

  lemma {:induction false} UsedBound(items: seq<Option<Node>>)
    ensures Used(items) >= SizeOfItemIdData * |items|
  {
    if |items| > 0 {
      UsedBound(items[..|items| - 1]);
    }
  }

  lemma UsedAppend(items: seq<Option<Node>>, s: Option<Node>)
    ensures Used(items + [s]) == Used(items) + ItemSpace(s)
  {
    assert (items + [s])[..|items|] == items;
  }

  lemma {:induction false} UsedUpdate(items: seq<Option<Node>>, i: nat, s: Option<Node>)
    requires i < |items|
    ensures Used(items[i := s]) + ItemSpace(items[i]) == Used(items) + ItemSpace(s)
  {
    var last := |items| - 1;
    if i == last {
      assert items[i := s][..last] == items[..last];
    } else {
      UsedUpdate(items[..last], i, s);
      assert items[i := s][..last] == items[..last][i := s];
    }
  }

  /** An accounted page has fewer slots than an offset number can count. */
  lemma SlotBound(p: Page)
    requires Accounted(p)
    ensures |p.items| <= EmptyGap / SizeOfItemIdData
  {
    UsedBound(p.items);
  }

  /** PageGetFreeSpace: the gap less one line pointer, never negative. */
  function FreeSpace(p: Page): nat
    requires p.DataPage?
  {
    if p.gap < SizeOfItemIdData then 0 else p.gap - SizeOfItemIdData
  }

  /** PageGetExactFreeSpace: the gap, never negative. */
  function ExactFreeSpace(p: Page): nat
    requires p.DataPage?
  {
    if p.gap < 0 then 0 else p.gap
  }

  /**
   * PageAddItem without a requested offset and without overwrite: the
   * tuple goes into a new line pointer after the last one when it and its
   * line pointer fit in the gap; otherwise InvalidOffsetNumber (0) and the
   * page is unchanged.
   */
  function AddItem(p: Page, n: Node): (r: (Page, u16))
    requires Accounted(p)
    ensures Accounted(r.0) && r.0.special == p.special
    ensures r.1 != 0 <==> SizeOfItemIdData + MaxAlign(NodeSize(n)) <= p.gap
    ensures r.1 == 0 ==> r.0 == p
    ensures r.1 != 0 ==> r.1 as nat == |p.items| + 1 && |r.0.items| == r.1 as nat &&
                         r.0.items[..|p.items|] == p.items && r.0.items[r.1 - 1] == Some(n)
    ensures r.1 != 0 ==> r.0.gap == p.gap - SizeOfItemIdData - MaxAlign(NodeSize(n))
  {
    var need := SizeOfItemIdData + MaxAlign(NodeSize(n));
    if need <= p.gap then
      SlotBound(p);
      UsedAppend(p.items, Some(n));
      assert (p.items + [Some(n)])[..|p.items|] == p.items;
      (p.(items := p.items + [Some(n)], gap := p.gap - need), (|p.items| + 1) as u16)
    else (p, 0)
  }

  /** Whether off names a line pointer of p that holds a tuple. */
  predicate HasItem(p: Page, off: u16)
    requires p.DataPage?
  {
    1 <= off as nat <= |p.items| && p.items[off - 1].Some?
  }

  /**
   * PageIndexTupleOverwrite: replace the tuple at off with n in place.
   * None stands for the error an invalid or unused line pointer raises.
   * When the aligned new tuple does not fit in the old one's space plus
   * the gap, the primitive reports failure and leaves the page unchanged
   * (the callers here ignore that result).
   */
  function Overwrite(p: Page, off: u16, n: Node): (r: Option<Page>)
    requires Accounted(p)
    ensures r.Some? <==> HasItem(p, off)
    ensures r.Some? ==> Accounted(r.value) && r.value.special == p.special && |r.value.items| == |p.items|
    ensures r.Some? ==> var old_ := MaxAlign(NodeSize(p.items[off - 1].value));
                        var new_ := MaxAlign(NodeSize(n));
                        if new_ <= old_ + p.gap
                        then r.value.items == p.items[off - 1 := Some(n)] && r.value.gap == p.gap + old_ - new_
                        else r.value == p
  {
    if !HasItem(p, off) then None
    else
      var old_ := MaxAlign(NodeSize(p.items[off - 1].value));
      var new_ := MaxAlign(NodeSize(n));
      if new_ <= old_ + p.gap then
        UsedUpdate(p.items, off - 1, Some(n));
        Some(p.(items := p.items[off - 1 := Some(n)], gap := p.gap + old_ - new_))
      else Some(p)
  }

  /**
   * PageIndexTupleDeleteNoCompact: free the tuple at off. The line pointer
   * becomes unused, or is dropped when it is the last one; offsets of the
   * other tuples do not move. None for an invalid or unused line pointer.
   */
  function DeleteNoCompact(p: Page, off: u16): (r: Option<Page>)
    requires Accounted(p)
    ensures r.Some? <==> HasItem(p, off)
    ensures r.Some? ==> Accounted(r.value) && r.value.special == p.special && |r.value.items| <= |p.items|
    ensures r.Some? ==> forall i :: 0 <= i < |p.items| && i != off as nat - 1 ==>
                          i < |r.value.items| && r.value.items[i] == p.items[i]
    ensures r.Some? ==> off as nat - 1 >= |r.value.items| || r.value.items[off - 1].None?
    ensures r.Some? ==> r.value.gap == p.gap + MaxAlign(NodeSize(p.items[off - 1].value)) +
                                        (if off as nat == |p.items| then SizeOfItemIdData else 0)
  {
    if !HasItem(p, off) then None
    else
      var freed := MaxAlign(NodeSize(p.items[off - 1].value));
      if off as nat < |p.items| then
        UsedUpdate(p.items, off - 1, None);
        Some(p.(items := p.items[off - 1 := None], gap := p.gap + freed))
      else
        Some(p.(items := p.items[..|p.items| - 1], gap := p.gap + freed + SizeOfItemIdData))
  }
}
