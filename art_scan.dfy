/**
 * Index scans (art_scan.c): the descent that collects the leaves a scan
 * key selects, and `artgettuple`, which hands out their locators one call
 * at a time. The leaf queue is a pairing heap ordered by block number in
 * the source; here it is a multiset, popped at a least block.
 */
module ArtScan {
  import opened ArtTypes
  import opened ArtKey
  import opened ArtUtils
  import opened ArtStore

  /**
   * `_art_find_cmp_order`: the leaf queue's comparator on block numbers;
   * the pairing heap hands out first an entry no other entry beats, so
   * leaves come out by ascending block.
   */
  function CmpOrder(a: Iptr, b: Iptr): (r: int)
    ensures r == 0 <==> a.blk == b.blk
    ensures r == 1 <==> a.blk < b.blk
    ensures r == -1 <==> a.blk > b.blk
  {
    if a.blk == b.blk then 0 else if a.blk < b.blk then 1 else -1
  }

  /** An entry the heap may hand out first: none of the queue comes before it. */
  predicate First(l: Iptr, q: multiset<Iptr>)
  {
    l in q && forall o :: o in q ==> CmpOrder(l, o) >= 0
  }

  /** Every non-empty queue has an entry to hand out first. */
  lemma {:induction false} FirstExists(q: multiset<Iptr>)
    requires |q| > 0
    ensures exists l :: First(l, q)
    decreases |q|
  {
    var x :| x in q;
    var rest := q - multiset{x};
    assert q == rest + multiset{x};
    if |rest| == 0 {
      assert rest == multiset{};
      forall o | o in q
        ensures CmpOrder(x, o) >= 0
      {
        assert o == x;
      }
      assert First(x, q);
    } else {
      FirstExists(rest);
      var l :| First(l, rest);
      if x.blk < l.blk {
        forall o | o in q
          ensures CmpOrder(x, o) >= 0
        {
          if o != x {
            assert o in rest && CmpOrder(l, o) >= 0;
          }
        }
        assert First(x, q);
      } else {
        forall o | o in q
          ensures CmpOrder(l, o) >= 0
        {
          if o != x {
            assert o in rest;
          }
        }
        assert First(l, q);
      }
    }
  }

  // ------------------------------------------------------------------
  // The descent

  /**
   * Whether `_art_search` queues a leaf with key leafKey reached at depth.
   * In equality mode the whole key must match; in range mode a leaf
   * reached through a non-exact child is taken as it is, and one reached
   * through the exact child only when its byte at depth - 1 is on the
   * strategy's side of the key's. The leaf's byte is read from its data
   * array, so past the leaf's key it is a byte of its first locator. None
   * at depth 0, past the leaf's whole data array, or past the search key.
   */
  function LeafAdmits(leafKey: seq<byte>, items: seq<Iptr>, key: seq<byte>, st: int, range: bool, compare: bool, depth: nat): (r: Option<bool>)
    ensures !range ==> r == Some(leafKey == key)
    ensures range && !compare ==> r == Some(true)
    ensures range && compare ==> (r.Some? <==> 1 <= depth <= |key| && DataByte(leafKey, items, depth - 1).Some?)
    ensures range && compare && r.Some? ==>
      var a, b := DataByte(leafKey, items, depth - 1).value, key[depth - 1];
      (r.value <==> (st == BTLessStrategyNumber && a < b) || (st == BTLessEqualStrategyNumber && a <= b) ||
                    (st == BTGreaterStrategyNumber && a > b) || (st == BTGreaterEqualStrategyNumber && a >= b))
  {
    if !range then Some(LeafMatches(leafKey, key) == 0)
    else if !compare then Some(true)
    else if depth == 0 || depth > |key| then None
    else
      match DataByte(leafKey, items, depth - 1)
      case None => None
      case Some(a) =>
        var cmp := CompareKey(a, key[depth - 1]);
        if st == BTLessStrategyNumber then Some(cmp < 0)
        else if st == BTLessEqualStrategyNumber then Some(cmp <= 0)
        else if st == BTGreaterStrategyNumber then Some(cmp > 0)
        else if st == BTGreaterEqualStrategyNumber then Some(cmp >= 0)
        else Some(false)
  }

  /**
   * A leaf whose key ends one byte short of the depth reached is compared
   * on its locator's first byte: a `>=` scan for 61 00 00 reaches the leaf
   * of 61 00 at depth 3 and admits it on 00 >= 00.
   */
  lemma LocatorByteAdmits()
    ensures LeafAdmits([0x61, 0], [Iptr(5, 1)], [0x61, 0, 0], BTGreaterEqualStrategyNumber, true, true, 3) == Some(true)
  {
    assert IptrBytes(Iptr(5, 1))[0] == 0;
  }

  /**
   * The children `_art_search` queues at an internal node once past its
   * prefix at depth d: in equality mode the one child for the key's byte,
   * exact; in range mode those `_art_find_child_range` enumerates. None
   * where the byte read lies past the key (a non-comparing range step
   * reads it but does not use it).
   */
  function ChildItems(n: Node, key: seq<byte>, st: int, range: bool, compare: bool, d: nat): (r: Option<seq<QueueItem>>)
    requires WellFormed(n)
    ensures !range ==> (r.Some? <==> d < |key|)
    ensures !range && r.Some? ==> |r.value| <= 1 && forall i :: 0 <= i < |r.value| ==> r.value[i].exact
    ensures !range && r.Some? ==> forall i :: 0 <= i < |r.value| ==> key[d] in Pairs(n) && r.value[i].iptr == Pairs(n)[key[d]]
  {
    if !range then
      if d >= |key| then None
      else
        ChildEqualIsPairs(n, key[d]);
        match ChildEqual(n, key[d])
        case None => Some([])
        case Some(c) => Some([QueueItem(c, true)])
    else if compare && d >= |key| then None
    else Some(ChildRange(n, if d < |key| then key[d] else 0, st, compare))
  }

  /**
   * The leaves `_art_search` queues from node r at depth, reached with
   * the given exact flag: a leaf as LeafAdmits says; an internal node
   * whose inline prefix does not match the key from depth gives nothing;
   * otherwise each queued child is searched one byte past the prefix.
   * None where the code would dereference a missing node or read past the
   * key, and for a descent deeper than the longest key (a cyclic store).
   */
  function SearchFrom(pages: map<nat, Page>, r: Iptr, key: seq<byte>, st: int, range: bool, compare: bool, depth: nat): Option<multiset<Iptr>>
    requires StoreWellFormed(pages) && depth <= MAX_DEPTH
    decreases MAX_DEPTH - depth, 0, 2
  {
    match NodeAt(pages, r)
    case None => None
    case Some(n) =>
      if n.Leaf? then
        match LeafAdmits(n.key, n.items, key, st, range, compare, depth)
        case None => None
        case Some(b) => Some(if b then multiset{r} else multiset{})
      else
        NodeAtWellFormed(pages, r);
        InnerFrom(pages, n, key, st, range, compare, depth)
  }

  /** The descent at internal node n: the inline prefix check, then the children one byte past the prefix. */
  function InnerFrom(pages: map<nat, Page>, n: Node, key: seq<byte>, st: int, range: bool, compare: bool, depth: nat): Option<multiset<Iptr>>
    requires StoreWellFormed(pages) && WellFormed(n) && !n.Leaf? && depth <= MAX_DEPTH
    decreases MAX_DEPTH - depth, 0, 1
  {
    if n.hdr.prefixLen != 0 && PrefixMatchLen(n.hdr, key, depth) != Min(MAX_PREFIX_KEY_LEN, n.hdr.prefixLen as nat) then
      Some(multiset{})
    else if depth + n.hdr.prefixLen as nat + 1 > MAX_DEPTH then None
    else BelowFrom(pages, n, key, st, range, compare, depth + n.hdr.prefixLen as nat)
  }

  /** The children of n queued for the key byte at d, each searched at d + 1. */
  function BelowFrom(pages: map<nat, Page>, n: Node, key: seq<byte>, st: int, range: bool, compare: bool, d: nat): Option<multiset<Iptr>>
    requires StoreWellFormed(pages) && WellFormed(n) && d + 1 <= MAX_DEPTH
    decreases MAX_DEPTH - d, 0, 0
  {
    match ChildItems(n, key, st, range, compare, d)
    case None => None
    case Some(kids) => Collect(pages, kids, key, st, range, d + 1)
  }

  /** The leaves the searches of the queued children kids collect together. */
  function Collect(pages: map<nat, Page>, kids: seq<QueueItem>, key: seq<byte>, st: int, range: bool, depth: nat): Option<multiset<Iptr>>
    requires StoreWellFormed(pages) && depth <= MAX_DEPTH
    decreases MAX_DEPTH - depth, 1, |kids|
  {
    if |kids| == 0 then Some(multiset{})
    else
      match Collect(pages, kids[..|kids| - 1], key, st, range, depth)
      case None => None
      case Some(m) =>
        match SearchFrom(pages, kids[|kids| - 1].iptr, key, st, range, kids[|kids| - 1].exact, depth)
        case None => None
        case Some(m2) => Some(m + m2)
  }

  /** What the descent may queue: a leaf, and in equality mode a leaf with the search key. */
  predicate Found(pages: map<nat, Page>, l: Iptr, key: seq<byte>, range: bool)
  {
    NodeAt(pages, l).Some? && NodeAt(pages, l).value.Leaf? && (!range ==> NodeAt(pages, l).value.key == key)
  }

  /**
   * Everything the descent queues is a leaf; in equality mode, a leaf
   * whose key is the search key.
   */
  lemma {:induction false} SearchSound(pages: map<nat, Page>, r: Iptr, key: seq<byte>, st: int, range: bool, compare: bool, depth: nat)
    requires StoreWellFormed(pages) && depth <= MAX_DEPTH
    requires SearchFrom(pages, r, key, st, range, compare, depth).Some?
    ensures forall l :: l in SearchFrom(pages, r, key, st, range, compare, depth).value ==> Found(pages, l, key, range)
    decreases MAX_DEPTH - depth, 0, 2
  {
    var n := NodeAt(pages, r).value;
    if !n.Leaf? {
      NodeAtWellFormed(pages, r);
      InnerSound(pages, n, key, st, range, compare, depth);
    }
  }

  lemma {:induction false} InnerSound(pages: map<nat, Page>, n: Node, key: seq<byte>, st: int, range: bool, compare: bool, depth: nat)
    requires StoreWellFormed(pages) && WellFormed(n) && !n.Leaf? && depth <= MAX_DEPTH
    requires InnerFrom(pages, n, key, st, range, compare, depth).Some?
    ensures forall l :: l in InnerFrom(pages, n, key, st, range, compare, depth).value ==> Found(pages, l, key, range)
    decreases MAX_DEPTH - depth, 0, 1
  {
    if !(n.hdr.prefixLen != 0 && PrefixMatchLen(n.hdr, key, depth) != Min(MAX_PREFIX_KEY_LEN, n.hdr.prefixLen as nat)) {
      var d := depth + n.hdr.prefixLen as nat;
      var res := InnerFrom(pages, n, key, st, range, compare, depth);
      assert res == BelowFrom(pages, n, key, st, range, compare, d);
      var kids := ChildItems(n, key, st, range, compare, d).value;
      assert res == Collect(pages, kids, key, st, range, d + 1);
      CollectSound(pages, kids, key, st, range, d + 1);
    }
  }

  lemma {:induction false} CollectSound(pages: map<nat, Page>, kids: seq<QueueItem>, key: seq<byte>, st: int, range: bool, depth: nat)
    requires StoreWellFormed(pages) && depth <= MAX_DEPTH
    requires Collect(pages, kids, key, st, range, depth).Some?
    ensures forall l :: l in Collect(pages, kids, key, st, range, depth).value ==> Found(pages, l, key, range)
    decreases MAX_DEPTH - depth, 1, |kids|
  {
    if |kids| > 0 {
      CollectSound(pages, kids[..|kids| - 1], key, st, range, depth);
      SearchSound(pages, kids[|kids| - 1].iptr, key, st, range, kids[|kids| - 1].exact, depth);
    }
  }

  /** Collecting one more child adds what that child's search collects. */
  lemma CollectStep(pages: map<nat, Page>, kids: seq<QueueItem>, i: nat, key: seq<byte>, st: int, range: bool, depth: nat)
    requires StoreWellFormed(pages) && depth <= MAX_DEPTH && i < |kids|
    ensures var c := Collect(pages, kids[..i + 1], key, st, range, depth);
      var p := Collect(pages, kids[..i], key, st, range, depth);
      var s := SearchFrom(pages, kids[i].iptr, key, st, range, kids[i].exact, depth);
      c == if p.Some? && s.Some? then Some(p.value + s.value) else None
  {
    assert kids[..i + 1][..i] == kids[..i];
  }

  /** A child whose search fails makes the whole collection fail. */
  lemma {:induction false} CollectFails(pages: map<nat, Page>, kids: seq<QueueItem>, i: nat, key: seq<byte>, st: int, range: bool, depth: nat)
    requires StoreWellFormed(pages) && depth <= MAX_DEPTH && i <= |kids|
    requires Collect(pages, kids[..i], key, st, range, depth).None?
    ensures Collect(pages, kids, key, st, range, depth).None?
    decreases |kids| - i
  {
    if i < |kids| {
      CollectStep(pages, kids, i, key, st, range, depth);
      CollectFails(pages, kids, i + 1, key, st, range, depth);
    } else {
      assert kids[..i] == kids;
    }
  }

  // ------------------------------------------------------------------
  // The scan state

  /** What one `artgettuple` call gives: a heap locator, the end of the scan, or a read the model leaves undefined. */
  datatype Fetch = Tuple(tid: Iptr) | Exhausted | Stuck

  /**
   * ArtScanOpaqueData: the index's pages, the scan key and strategy it was
   * started with, whether the descent has run, the queue of leaves still
   * to read, and the locators of the current leaf with the position of
   * the next one to return.
   */
  class ScanState {
    const pages: map<nat, Page>
    const key: seq<byte>
    const strategy: int
    var fetching: bool
    var leafQueue: multiset<Iptr>
    var items: seq<Iptr>
    var current: nat

    ghost predicate Valid()
      reads this
    {
      StoreWellFormed(pages) && current <= |items| &&
      BTLessStrategyNumber <= strategy <= BTGreaterStrategyNumber
    }

    /** The leaves the one descent of a scan collects: from the root, comparing, in range mode unless the strategy is equality. */
    ghost function RootSearch(): Option<multiset<Iptr>>
      requires StoreWellFormed(pages)
    {
      SearchFrom(pages, RootIptr, key, strategy, strategy != BTEqualStrategyNumber, true, 0)
    }

    /** `artbeginscan` with the key `_art_form_key` builds from the scan argument: nothing fetched, no leaf held. */
    constructor (pages: map<nat, Page>, key: seq<byte>, strategy: int)
      requires StoreWellFormed(pages) && BTLessStrategyNumber <= strategy <= BTGreaterStrategyNumber
      ensures Valid() && this.pages == pages && this.key == key && this.strategy == strategy
      ensures !fetching && leafQueue == multiset{} && items == [] && current == 0
    {
      this.pages := pages;
      this.key := key;
      this.strategy := strategy;
      fetching := false;
      leafQueue := multiset{};
      items := [];
      current := 0;
    }

    /**
     * `_art_search`: the descent from r, queueing the leaves it selects.
     * Children are searched in the order enumerated; the result does not
     * depend on it.
     */
    method Search(r: Iptr, range: bool, compare: bool, depth: nat) returns (ok: bool)
      requires Valid() && depth <= MAX_DEPTH
      modifies this`leafQueue
      decreases MAX_DEPTH - depth, 0, 2
      ensures ok <==> SearchFrom(pages, r, key, strategy, range, compare, depth).Some?
      ensures ok ==> leafQueue == old(leafQueue) + SearchFrom(pages, r, key, strategy, range, compare, depth).value
    {
      var nd := NodeAt(pages, r);
      if nd.None? {
        return false;
      }
      if nd.value.Leaf? {
        var admit := LeafAdmits(nd.value.key, nd.value.items, key, strategy, range, compare, depth);
        if admit.None? {
          return false;
        }
        if admit.value {
          leafQueue := leafQueue + multiset{r};
        }
        return true;
      }
      NodeAtWellFormed(pages, r);
      ok := SearchInner(nd.value, range, compare, depth);
    }

    /** `_art_search` at an internal node: the inline prefix check, then the children one byte past the prefix. */
    method SearchInner(n: Node, range: bool, compare: bool, depth: nat) returns (ok: bool)
      requires Valid() && depth <= MAX_DEPTH && WellFormed(n) && !n.Leaf?
      modifies this`leafQueue
      decreases MAX_DEPTH - depth, 0, 1
      ensures ok <==> InnerFrom(pages, n, key, strategy, range, compare, depth).Some?
      ensures ok ==> leafQueue == old(leafQueue) + InnerFrom(pages, n, key, strategy, range, compare, depth).value
    {
      var plen := n.hdr.prefixLen as nat;
      if plen != 0 {
        var matched := CheckPrefix(n.hdr, key, depth);
        if matched != Min(MAX_PREFIX_KEY_LEN, plen) {
          return true;
        }
      }
      if depth + plen + 1 > MAX_DEPTH {
        return false;
      }
      ok := SearchBelow(n, range, compare, depth + plen);
    }

    /** The children the child step queues at d, each searched at d + 1. */
    method SearchBelow(n: Node, range: bool, compare: bool, d: nat) returns (ok: bool)
      requires Valid() && d + 1 <= MAX_DEPTH && WellFormed(n)
      modifies this`leafQueue
      decreases MAX_DEPTH - d, 0, 0
      ensures ok <==> BelowFrom(pages, n, key, strategy, range, compare, d).Some?
      ensures ok ==> leafQueue == old(leafQueue) + BelowFrom(pages, n, key, strategy, range, compare, d).value
    {
      var kids := QueuedChildren(n, range, compare, d);
      if kids.None? {
        return false;
      }
      ok := SearchChildren(kids.value, range, d + 1);
    }

    /** The child step of `_art_search`: `_art_find_child_equal` or `_art_find_child_range` on the key byte at d. */
    method QueuedChildren(n: Node, range: bool, compare: bool, d: nat) returns (kids: Option<seq<QueueItem>>)
      requires WellFormed(n)
      ensures kids == ChildItems(n, key, strategy, range, compare, d)
    {
      if !range {
        if d >= |key| {
          return None;
        }
        var c := FindChildEqual(n, key[d]);
        kids := if c.Some? then Some([QueueItem(c.value, true)]) else Some([]);
      } else {
        if compare && d >= |key| {
          return None;
        }
        var q := FindChildRange(n, if d < |key| then key[d] else 0, strategy, compare);
        kids := Some(q);
      }
    }

    /** The loop of `_art_search` over the children queue, each child at depth with its own exact flag. */
    method SearchChildren(kids: seq<QueueItem>, range: bool, depth: nat) returns (ok: bool)
      requires Valid() && depth <= MAX_DEPTH
      modifies this`leafQueue
      decreases MAX_DEPTH - depth, 1
      ensures ok <==> Collect(pages, kids, key, strategy, range, depth).Some?
      ensures ok ==> leafQueue == old(leafQueue) + Collect(pages, kids, key, strategy, range, depth).value
    {
      var i := 0;
      while i < |kids|
        invariant 0 <= i <= |kids|
        invariant Collect(pages, kids[..i], key, strategy, range, depth).Some?
        invariant leafQueue == old(leafQueue) + Collect(pages, kids[..i], key, strategy, range, depth).value
      {
        CollectStep(pages, kids, i, key, strategy, range, depth);
        ok := Search(kids[i].iptr, range, kids[i].exact, depth);
        if !ok {
          CollectFails(pages, kids, i + 1, key, strategy, range, depth);
          return;
        }
        i := i + 1;
      }
      assert kids[..i] == kids;
      ok := true;
    }

    /** The descent of the first `artgettuple` call, guarded by fetching. */
    method Start() returns (ok: bool)
      requires Valid()
      modifies this`leafQueue, this`fetching
      ensures ok <==> old(fetching) || RootSearch().Some?
      ensures ok ==> fetching && leafQueue == if old(fetching) then old(leafQueue) else old(leafQueue) + RootSearch().value
    {
      if fetching {
        return true;
      }
      ok := Search(RootIptr, strategy != BTEqualStrategyNumber, true, 0);
      if ok {
        fetching := true;
      }
    }

    /**
     * The refill of `artgettuple` once the current locators are used up:
     * a leaf no other queued entry comes before leaves the queue, its
     * successor in the chain joins it, and its first locator is returned.
     * Exhausted when the queue is empty.
     */
    method NextLeaf() returns (res: Fetch, ghost popped: Option<Iptr>)
      requires Valid() && current == |items|
      modifies this`leafQueue, this`items, this`current
      ensures Valid()
      ensures popped.None? <==> old(leafQueue) == multiset{}
      ensures popped.None? ==> res.Exhausted? && leafQueue == old(leafQueue) && items == old(items) && current == old(current)
      ensures popped.Some? ==> First(popped.value, old(leafQueue)) && (res.Stuck? <==> !Readable(pages, popped.value))
      ensures popped.Some? && !res.Stuck? ==>
        var lf := NodeAt(pages, popped.value).value;
        && res == Tuple(lf.items[0]) && items == lf.items && current == 1
        && leafQueue == old(leafQueue) - multiset{popped.value} + Successor(lf)
    {
      if leafQueue == multiset{} {
        return Exhausted, None;
      }
      FirstExists(leafQueue);
      var l :| First(l, leafQueue);
      popped := Some(l);
      leafQueue := leafQueue - multiset{l};
      var nd := NodeAt(pages, l);
      if nd.None? || !nd.value.Leaf? || |nd.value.items| == 0 {
        return Stuck, popped;
      }
      if IptrValid(nd.value.next) {
        leafQueue := leafQueue + multiset{nd.value.next};
      }
      items := nd.value.items;
      res := Tuple(items[0]);
      current := 1;
    }

    /**
     * `artgettuple`: on the first call the descent from the root fills
     * the leaf queue. When the current leaf's locators are used up the
     * queue hands out a leaf of least block (or the scan ends); its
     * successor in the chain, if any, is queued and its locators become
     * current. Each call returns the next locator in stored order.
     */
    method GetTuple() returns (res: Fetch, ghost popped: Option<Iptr>)
      requires Valid()
      modifies this
      ensures Valid()
      ensures res.Stuck? <==> (!old(fetching) && RootSearch().None?) || (popped.Some? && !Readable(pages, popped.value))
      ensures !res.Stuck? ==>
        var q0 := if old(fetching) then old(leafQueue) else old(leafQueue) + RootSearch().value;
        && fetching
        && (old(current) < |old(items)| ==>
              popped.None? && res == Tuple(old(items)[old(current)]) &&
              items == old(items) && current == old(current) + 1 && leafQueue == q0)
        && (old(current) == |old(items)| ==> (res.Exhausted? <==> q0 == multiset{}))
        && (old(current) == |old(items)| && q0 != multiset{} ==>
              popped.Some? && First(popped.value, q0) &&
              var lf := NodeAt(pages, popped.value).value;
              && res == Tuple(lf.items[0]) && items == lf.items && current == 1
              && leafQueue == q0 - multiset{popped.value} + Successor(lf))
    {
      popped := None;
      var ok := Start();
      if !ok {
        return Stuck, None;
      }
      if current == |items| {
        res, popped := NextLeaf();
        return;
      }
      res := Tuple(items[current]);
      current := current + 1;
    }
  }

  /** A leaf the refill can read: present, a leaf, and holding a locator. */
  predicate Readable(pages: map<nat, Page>, l: Iptr)
  {
    NodeAt(pages, l).Some? && NodeAt(pages, l).value.Leaf? && |NodeAt(pages, l).value.items| > 0
  }

  /** What a popped leaf adds to the queue: the next segment of its chain, when it has one. */
  function Successor(lf: Node): (m: multiset<Iptr>)
    requires lf.Leaf?
    ensures m == multiset{} <==> !IptrValid(lf.next)
    ensures IptrValid(lf.next) ==> m == multiset{lf.next}
  {
    if IptrValid(lf.next) then multiset{lf.next} else multiset{}
  }

  /**
   * In equality mode everything a scan returns comes from a leaf with the
   * search key: the descent queues only such leaves.
   */
  lemma EqualityScanSound(pages: map<nat, Page>, key: seq<byte>)
    requires StoreWellFormed(pages)
    requires SearchFrom(pages, RootIptr, key, BTEqualStrategyNumber, false, true, 0).Some?
    ensures forall l :: l in SearchFrom(pages, RootIptr, key, BTEqualStrategyNumber, false, true, 0).value ==>
              LeafWithKey(pages, l, key)
  {
    SearchSound(pages, RootIptr, key, BTEqualStrategyNumber, false, true, 0);
  }
}
