/**
 * Node helpers (art_utils.c): allocation, sizing, header copy, child
 * lookup by exact byte and by range, minimum-leaf descent, and the byte
 * runs used to match keys and inline prefixes.
 */
module ArtUtils {
  import opened ArtTypes
  import opened ArtKey

  // sizeof of each layout in art.h, with 2-byte aligned ItemPointerData.
  const SIZEOF_ITEM_POINTER: nat := 6
  const SIZEOF_LEAF: nat := 24
  const SIZEOF_NODE4: nat := 46
  const SIZEOF_NODE16: nat := 130
  const SIZEOF_NODE48: nat := 562
  const SIZEOF_NODE256: nat := 1554

  /** Deepest level a descent goes to: every stored key is shorter than a page. */
  const MAX_DEPTH: nat := 8144

  /** `_art_node_size` (art_utils.c:51-74). */
  function NodeSize(n: Node): nat
  {
    match n
    case Leaf(_, _, _, key, items) => SIZEOF_LEAF + |key| + |items| * SIZEOF_ITEM_POINTER
    case Node4(_, _, _) => SIZEOF_NODE4
    case Node16(_, _, _) => SIZEOF_NODE16
    case Node48(_, _, _) => SIZEOF_NODE48
    case Node256(_, _) => SIZEOF_NODE256
  }

  function Zeros(n: nat): (r: seq<byte>)
    ensures |r| == n && forall i :: 0 <= i < n ==> r[i] == 0
  {
    seq(n, _ => 0)
  }

  function ZeroIptrs(n: nat): (r: seq<Iptr>)
    ensures |r| == n && forall i :: 0 <= i < n ==> r[i] == ZeroIptr
  {
    seq(n, _ => ZeroIptr)
  }

  /** A zeroed header: no parent, no children, empty prefix. */
  const EmptyHeader: Header := Header(ZeroIptr, 0, 0, Zeros(MAX_PREFIX_KEY_LEN))

  lemma {:induction false} CountValidNone(cs: seq<Iptr>)
    requires forall i :: 0 <= i < |cs| ==> !IptrValid(cs[i])
    ensures CountValid(cs) == 0
  {
    if |cs| > 0 {
      CountValidNone(cs[..|cs| - 1]);
    }
  }

  lemma {:induction false} CountNonZeroNone(ks: seq<byte>)
    requires forall i :: 0 <= i < |ks| ==> ks[i] == 0
    ensures CountNonZero(ks) == 0
  {
    if |ks| > 0 {
      CountNonZeroNone(ks[..|ks| - 1]);
    }
  }

  /**
   * `_art_alloc_node` (art_utils.c:21-45): a zeroed internal node of the
   * requested type; any other type is an error (None).
   */
  function AllocNode(t: byte): (r: Option<Node>)
    ensures r.Some? <==> NODE_4 <= t <= NODE_256
    ensures r.Some? ==> Tag(r.value) == t && !r.value.Leaf? && r.value.hdr == EmptyHeader
    ensures r.Some? ==> WellFormed(r.value) && Pairs(r.value) == map[]
  {
    if t == NODE_4 then Some(Node4(EmptyHeader, Zeros(4), ZeroIptrs(4)))
    else if t == NODE_16 then Some(Node16(EmptyHeader, Zeros(16), ZeroIptrs(16)))
    else if t == NODE_48 then
      CountValidNone(ZeroIptrs(48));
      CountNonZeroNone(Zeros(256));
      Some(Node48(EmptyHeader, Zeros(256), ZeroIptrs(48)))
    else if t == NODE_256 then
      CountValidNone(ZeroIptrs(256));
      Some(Node256(EmptyHeader, ZeroIptrs(256)))
    else None
  }

  /**
   * `_art_copy_header` as written (art_utils.c:77-84): count, prefix length
   * and inline prefix go from src to dest, but the item-pointer copy takes
   * (from, to), so src's parent is overwritten with dest's. Returns the
   * pair (dest, src) after the call.
   */
  function CopyHeaderAsWritten(dest: Header, src: Header): (r: (Header, Header))
    requires HeaderShaped(dest) && HeaderShaped(src)
    ensures r.0.numChildren == src.numChildren && r.0.prefixLen == src.prefixLen
    ensures r.0.parent == dest.parent && r.1.parent == dest.parent
  {
    var m := Min(MAX_PREFIX_KEY_LEN, src.prefixLen);
    (dest.(numChildren := src.numChildren, prefixLen := src.prefixLen,
           prefix := src.prefix[..m] + dest.prefix[m..]),
     src.(parent := dest.parent))
  }

  /** A growing node's fresh header keeps no parent and clears the old node's. */
  lemma CopyHeaderAsWrittenLosesParent()
    ensures var src := EmptyHeader.(parent := Iptr(1, 1), numChildren := 4);
            var r := CopyHeaderAsWritten(EmptyHeader, src);
            r.0.parent != src.parent && r.1.parent != src.parent
  {
  }

  /**
   * `_art_copy_header` as intended: the parent reference, the count, the
   * prefix length and the first min(8, prefix length) prefix bytes of src
   * land in dest; src is not touched.
   */
  function CopyHeader(dest: Header, src: Header): (r: Header)
    requires HeaderShaped(dest) && HeaderShaped(src)
    ensures HeaderShaped(r)
    ensures r.parent == src.parent && r.numChildren == src.numChildren && r.prefixLen == src.prefixLen
    ensures forall i :: 0 <= i < MAX_PREFIX_KEY_LEN ==>
              r.prefix[i] == if i < src.prefixLen as int then src.prefix[i] else dest.prefix[i]
  {
    var m := Min(MAX_PREFIX_KEY_LEN, src.prefixLen);
    Header(src.parent, src.numChildren, src.prefixLen, src.prefix[..m] + dest.prefix[m..])
  }

  // ------------------------------------------------------------------
  // Exact child lookup (art_utils.c:95-179)

  /** The lowest index holding k, or |ks| when there is none. */
  function FirstIndex(ks: seq<byte>, k: byte): (i: nat)
    ensures i <= |ks|
    ensures i < |ks| ==> ks[i] == k
    ensures forall j :: 0 <= j < i ==> ks[j] != k
  {
    if |ks| == 0 then 0
    else if ks[0] == k then 0
    else 1 + FirstIndex(ks[1..], k)
  }

  /**
   * `_art_find_child_equal`: Node4 and Node16 match among their first
   * num_children keys and take the lowest matching slot (the Node16 mask
   * with count-trailing-zeros picks the same slot); Node48 follows its key
   * map; Node256 requires a valid slot; a leaf has no children.
   */
  function ChildEqual(n: Node, k: byte): Option<Iptr>
    requires WellFormed(n)
  {
    match n
    case Leaf(_, _, _, _, _) => None
    case Node4(h, ks, cs) =>
      var i := FirstIndex(ks[..h.numChildren], k);
      if i < h.numChildren as int then Some(cs[i]) else None
    case Node16(h, ks, cs) =>
      var i := FirstIndex(ks[..h.numChildren], k);
      if i < h.numChildren as int then Some(cs[i]) else None
    case Node48(h, ks, cs) => if ks[k] != 0 then Some(cs[ks[k] - 1]) else None
    case Node256(h, cs) => if IptrValid(cs[k]) then Some(cs[k]) else None
  }

  /** Scan of the first nc keys for k (the Node4 loop; Node16's masked compare). */
  method ScanKeys(ks: seq<byte>, cs: seq<Iptr>, nc: nat, k: byte) returns (r: Option<Iptr>)
    requires nc <= |ks| == |cs|
    ensures r == var i := FirstIndex(ks[..nc], k); if i < nc then Some(cs[i]) else None
  {
    var i := 0;
    while i < nc
      invariant 0 <= i <= nc
      invariant forall j :: 0 <= j < i ==> ks[j] != k
    {
      if ks[i] == k {
        assert ks[..nc][i] == k;
        return Some(cs[i]);
      }
      i := i + 1;
    }
    return None;
  }

  method FindChildEqual(n: Node, k: byte) returns (r: Option<Iptr>)
    requires WellFormed(n)
    ensures r == ChildEqual(n, k)
  {
    match n {
      case Leaf(_, _, _, _, _) => r := None;
      case Node4(h, ks, cs) => r := ScanKeys(ks, cs, h.numChildren, k);
      case Node16(h, ks, cs) => r := ScanKeys(ks, cs, h.numChildren, k);
      case Node48(h, ks, cs) =>
        if ks[k] != 0 {
          r := Some(cs[ks[k] - 1]);
        } else {
          r := None;
        }
      case Node256(h, cs) =>
        if IptrValid(cs[k]) {
          r := Some(cs[k]);
        } else {
          r := None;
        }
    }
  }

  lemma {:induction false} PairsOfFirst(ks: seq<byte>, cs: seq<Iptr>, k: byte)
    requires |ks| == |cs|
    ensures k in PairsOf(ks, cs) <==> FirstIndex(ks, k) < |ks|
    ensures k in PairsOf(ks, cs) ==> PairsOf(ks, cs)[k] == cs[FirstIndex(ks, k)]
    decreases |ks|
  {
    if |ks| > 0 && ks[0] != k {
      PairsOfFirst(ks[1..], cs[1..], k);
    }
  }

  /** The exact lookup finds a child for k exactly when the node pairs k with it. */
  lemma ChildEqualIsPairs(n: Node, k: byte)
    requires WellFormed(n)
    ensures ChildEqual(n, k).Some? <==> k in Pairs(n)
    ensures k in Pairs(n) ==> ChildEqual(n, k) == Some(Pairs(n)[k])
  {
    match n {
      case Leaf(_, _, _, _, _) =>
      case Node4(h, ks, cs) => PairsOfFirst(ks[..h.numChildren], cs[..h.numChildren], k);
      case Node16(h, ks, cs) => PairsOfFirst(ks[..h.numChildren], cs[..h.numChildren], k);
      case Node48(h, ks, cs) =>
      case Node256(h, cs) =>
    }
  }

  // ------------------------------------------------------------------
  // Range child enumeration (art_utils.c:182-368)

  // B-tree strategy numbers.
  const BTLessStrategyNumber: int := 1
  const BTLessEqualStrategyNumber: int := 2
  const BTEqualStrategyNumber: int := 3
  const BTGreaterEqualStrategyNumber: int := 4
  const BTGreaterStrategyNumber: int := 5

  predicate IsLess(st: int) { st == BTLessStrategyNumber || st == BTLessEqualStrategyNumber }
  predicate IsGreater(st: int) { st == BTGreaterStrategyNumber || st == BTGreaterEqualStrategyNumber }

  /** A child reference pushed on the search queue, with its exact flag. */
  datatype QueueItem = QueueItem(iptr: Iptr, exact: bool)

  /**
   * What one Node4/16 loop step pushes for key byte b and child c: without
   * compare the child, not exact; with compare and a less-than or
   * greater-than strategy the child when b is on the strategy's side of k,
   * exact when b is k; nothing otherwise.
   */
  function Pushed(b: byte, c: Iptr, k: byte, st: int, compare: bool): seq<QueueItem>
  {
    if !compare then [QueueItem(c, false)]
    else if (IsLess(st) || IsGreater(st)) && b == k then [QueueItem(c, true)]
    else if (IsLess(st) && b < k) || (IsGreater(st) && b > k) then [QueueItem(c, false)]
    else []
  }

  /** Keys ascend, so a less-than scan can stop at the first greater key. */
  predicate Stops(b: byte, k: byte, st: int, compare: bool)
  {
    compare && IsLess(st) && b > k
  }

  /** As written, a greater-than scan also stops at the first smaller key. */
  predicate StopsAsWritten(b: byte, k: byte, st: int, compare: bool)
  {
    compare && ((IsLess(st) && b > k) || (IsGreater(st) && b < k))
  }

  /** The children the Node4/16 loop pushes over the occupied prefix ks/cs, in push order. */
  function SortedRange(ks: seq<byte>, cs: seq<Iptr>, k: byte, st: int, compare: bool): seq<QueueItem>
    requires |ks| == |cs|
    decreases |ks|
  {
    if |ks| == 0 || Stops(ks[0], k, st, compare) then []
    else Pushed(ks[0], cs[0], k, st, compare) + SortedRange(ks[1..], cs[1..], k, st, compare)
  }

  /** The Node4/16 loop as written. */
  function SortedRangeAsWritten(ks: seq<byte>, cs: seq<Iptr>, k: byte, st: int, compare: bool): seq<QueueItem>
    requires |ks| == |cs|
    decreases |ks|
  {
    if |ks| == 0 || StopsAsWritten(ks[0], k, st, compare) then []
    else Pushed(ks[0], cs[0], k, st, compare) + SortedRangeAsWritten(ks[1..], cs[1..], k, st, compare)
  }

  /** What reading a Node48/256 slot needs: the array lengths, and Node48 map entries that name slots. */
  predicate WideShaped(n: Node)
  {
    (n.Node48? || n.Node256?) && Shaped(n) && (n.Node48? ==> MapConsistent(n.keys, n.children))
  }

  /** The child a Node48/256 holds for key byte i, if any. */
  function SlotChild(n: Node, i: byte): Option<Iptr>
    requires WideShaped(n)
  {
    match n
    case Node48(_, ks, cs) => if ks[i] != 0 then Some(cs[ks[i] - 1]) else None
    case Node256(_, cs) => if IptrValid(cs[i]) then Some(cs[i]) else None
  }

  lemma SlotChildPairs(n: Node, i: byte)
    requires WideShaped(n)
    ensures SlotChild(n, i).Some? <==> i in Pairs(n)
    ensures SlotChild(n, i).Some? ==> SlotChild(n, i).value == Pairs(n)[i]
  {
  }

  /** What slot i contributes to a Node48/256 scan. */
  function SlotItem(n: Node, i: byte, k: byte, compare: bool): seq<QueueItem>
    requires WideShaped(n)
  {
    var c := SlotChild(n, i);
    if c.Some? then [QueueItem(c.value, compare && i == k)] else []
  }

  /** The occupied Node48/256 slots in [from, to), exact when the slot is k and compare is set. */
  function WideRange(n: Node, from: nat, to: nat, k: byte, compare: bool): seq<QueueItem>
    requires WideShaped(n)
    requires from <= to <= 256
    decreases (to as int) - (from as int)
  {
    if from == to then []
    else WideRange(n, from, to - 1, k, compare) + SlotItem(n, to - 1, k, compare)
  }

  /** Node48/256 scan bounds: [0, k] for less-than, [k, 255] for greater-than, all otherwise. */
  function WideStart(k: byte, st: int, compare: bool): nat
  {
    if compare && IsGreater(st) then k else 0
  }

  function WideEnd(k: byte, st: int, compare: bool): nat
  {
    if compare && IsLess(st) then k + 1 else 256
  }

  /** What `_art_find_child_range` pushes, with the greater-than scan over Node4/16 corrected. */
  function ChildRange(n: Node, k: byte, st: int, compare: bool): seq<QueueItem>
    requires WellFormed(n)
  {
    match n
    case Leaf(_, _, _, _, _) => []
    case Node4(h, ks, cs) => SortedRange(ks[..h.numChildren], cs[..h.numChildren], k, st, compare)
    case Node16(h, ks, cs) => SortedRange(ks[..h.numChildren], cs[..h.numChildren], k, st, compare)
    case Node48(_, _, _) => WideRange(n, WideStart(k, st, compare), WideEnd(k, st, compare), k, compare)
    case Node256(_, _) => WideRange(n, WideStart(k, st, compare), WideEnd(k, st, compare), k, compare)
  }

  /** What `_art_find_child_range` pushes as written. */
  function ChildRangeAsWritten(n: Node, k: byte, st: int, compare: bool): seq<QueueItem>
    requires WellFormed(n)
  {
    match n
    case Leaf(_, _, _, _, _) => []
    case Node4(h, ks, cs) => SortedRangeAsWritten(ks[..h.numChildren], cs[..h.numChildren], k, st, compare)
    case Node16(h, ks, cs) => SortedRangeAsWritten(ks[..h.numChildren], cs[..h.numChildren], k, st, compare)
    case Node48(_, _, _) => WideRange(n, WideStart(k, st, compare), WideEnd(k, st, compare), k, compare)
    case Node256(_, _) => WideRange(n, WideStart(k, st, compare), WideEnd(k, st, compare), k, compare)
  }

  /** A Node4 holding keys 97 and 99 pushes nothing for "> 98", although 99 qualifies. */
  lemma GreaterScanStopsEarly()
    ensures var n := Node4(EmptyHeader.(numChildren := 2), [97, 99, 0, 0],
                           [Iptr(3, 1), Iptr(3, 2), ZeroIptr, ZeroIptr]);
            WellFormed(n) && 99 in Pairs(n) &&
            ChildRangeAsWritten(n, 98, BTGreaterStrategyNumber, true) == [] &&
            ChildRange(n, 98, BTGreaterStrategyNumber, true) == [QueueItem(Iptr(3, 2), false)]
  {
    var n := Node4(EmptyHeader.(numChildren := 2), [97, 99, 0, 0],
                   [Iptr(3, 1), Iptr(3, 2), ZeroIptr, ZeroIptr]);
    assert n.keys[..2] == [97, 99];
    assert n.children[..2] == [Iptr(3, 1), Iptr(3, 2)];
    assert [97, 99][1..] == [99];
    assert [Iptr(3, 1), Iptr(3, 2)][1..] == [Iptr(3, 2)];
  }

  lemma SortedRangeStep(ks: seq<byte>, cs: seq<Iptr>, i: nat, k: byte, st: int, compare: bool)
    requires |ks| == |cs| && i < |ks|
    ensures SortedRange(ks[i..], cs[i..], k, st, compare) ==
            if Stops(ks[i], k, st, compare) then []
            else Pushed(ks[i], cs[i], k, st, compare) + SortedRange(ks[i + 1..], cs[i + 1..], k, st, compare)
  {
    assert ks[i..][1..] == ks[i + 1..] && cs[i..][1..] == cs[i + 1..];
  }

  /** The loop invariant of SortedRangeLoop carried across one key. */
  lemma SortedRangeAccum(ks: seq<byte>, cs: seq<Iptr>, i: nat, k: byte, st: int, compare: bool,
                         q: seq<QueueItem>, total: seq<QueueItem>)
    requires |ks| == |cs| && i < |ks|
    requires q + SortedRange(ks[i..], cs[i..], k, st, compare) == total
    ensures Stops(ks[i], k, st, compare) ==> q == total
    ensures !Stops(ks[i], k, st, compare) ==>
              q + Pushed(ks[i], cs[i], k, st, compare) + SortedRange(ks[i + 1..], cs[i + 1..], k, st, compare) == total
  {
    SortedRangeStep(ks, cs, i, k, st, compare);
    assert q + [] == q;
    var p, rest := Pushed(ks[i], cs[i], k, st, compare), SortedRange(ks[i + 1..], cs[i + 1..], k, st, compare);
    assert q + (p + rest) == q + p + rest;
  }

  /**
   * One Node4/16 key of the range loop: the items it pushes, and whether
   * the loop breaks at it.
   */
  method ChildStep(b: byte, c: Iptr, k: byte, st: int, compare: bool) returns (pushed: seq<QueueItem>, stop: bool)
    ensures pushed == Pushed(b, c, k, st, compare) && stop == Stops(b, k, st, compare)
  {
    pushed, stop := [], false;
    if !compare {
      pushed := [QueueItem(c, false)];
      return;
    }
    var cmp := CompareKey(b, k);
    if IsLess(st) {
      if cmp < 0 {
        pushed := [QueueItem(c, false)];
      } else if cmp == 0 {
        pushed := [QueueItem(c, true)];
      } else {
        stop := true;
      }
    } else if IsGreater(st) {
      if cmp > 0 {
        pushed := [QueueItem(c, false)];
      } else if cmp == 0 {
        pushed := [QueueItem(c, true)];
      }
    }
  }

  /** The Node4/16 loop over the first nc keys, pushing onto q. */
  method SortedRangeLoop(ks: seq<byte>, cs: seq<Iptr>, nc: nat, k: byte, st: int, compare: bool)
    returns (q: seq<QueueItem>)
    requires nc <= |ks| == |cs|
    ensures q == SortedRange(ks[..nc], cs[..nc], k, st, compare)
  {
    var keys, children := ks[..nc], cs[..nc];
    ghost var total := SortedRange(keys, children, k, st, compare);
    assert keys[0..] == keys && children[0..] == children;
    q := [];
    var i := 0;
    while i < nc
      invariant 0 <= i <= nc
      invariant q + SortedRange(keys[i..], children[i..], k, st, compare) == total
    {
      var pushed, stop := ChildStep(keys[i], children[i], k, st, compare);
      SortedRangeAccum(keys, children, i, k, st, compare, q, total);
      if stop {
        return;
      }
      q := q + pushed;
      i := i + 1;
    }
    assert keys[nc..] == [];
    assert q + [] == q;
  }

  /** The Node48/256 loop over slots [start, end). */
  method WideRangeLoop(n: Node, start: nat, end: nat, k: byte, compare: bool) returns (q: seq<QueueItem>)
    requires WideShaped(n)
    requires start <= end <= 256
    ensures q == WideRange(n, start, end, k, compare)
  {
    q := [];
    var i := start;
    while i < end
      invariant start <= i <= end
      invariant q == WideRange(n, start, i, k, compare)
    {
      var c := SlotChild(n, i);
      if c.Some? {
        q := q + [QueueItem(c.value, compare && i == k as nat)];
      }
      i := i + 1;
    }
  }

  /** `_art_find_child_range`: the pushes in order, as a sequence. */
  method FindChildRange(n: Node, k: byte, st: int, compare: bool) returns (q: seq<QueueItem>)
    requires WellFormed(n)
    ensures q == ChildRange(n, k, st, compare)
  {
    match n {
      case Leaf(_, _, _, _, _) => q := [];
      case Node4(h, ks, cs) => q := SortedRangeLoop(ks, cs, h.numChildren, k, st, compare);
      case Node16(h, ks, cs) => q := SortedRangeLoop(ks, cs, h.numChildren, k, st, compare);
      case Node48(_, _, _) =>
        q := WideRangeLoop(n, WideStart(k, st, compare), WideEnd(k, st, compare), k, compare);
      case Node256(_, _) =>
        q := WideRangeLoop(n, WideStart(k, st, compare), WideEnd(k, st, compare), k, compare);
    }
  }

  /** Whether key byte b qualifies for the scan of byte k under strategy st. */
  predicate InRange(b: byte, k: byte, st: int, compare: bool)
  {
    !compare || (IsLess(st) && b <= k) || (IsGreater(st) && b >= k)
  }

  lemma PushedInRange(b: byte, c: Iptr, k: byte, st: int, compare: bool)
    requires compare ==> IsLess(st) || IsGreater(st)
    ensures Pushed(b, c, k, st, compare) == if InRange(b, k, st, compare) then [QueueItem(c, compare && b == k)] else []
  {
  }

  lemma {:induction false} SortedRangeMembers(ks: seq<byte>, cs: seq<Iptr>, k: byte, st: int, compare: bool)
    requires |ks| == |cs| && StrictlySorted(ks)
    requires compare ==> IsLess(st) || IsGreater(st)
    ensures forall q :: q in SortedRange(ks, cs, k, st, compare) <==>
              exists i :: 0 <= i < |ks| && InRange(ks[i], k, st, compare) && q == QueueItem(cs[i], compare && ks[i] == k)
    decreases |ks|
  {
    if |ks| > 0 {
      var r := SortedRange(ks, cs, k, st, compare);
      if Stops(ks[0], k, st, compare) {
        assert forall i :: 0 < i < |ks| ==> ks[0] < ks[i];
      } else {
        SortedRangeMembers(ks[1..], cs[1..], k, st, compare);
        PushedInRange(ks[0], cs[0], k, st, compare);
        forall q
          ensures q in r <==>
            exists i :: 0 <= i < |ks| && InRange(ks[i], k, st, compare) && q == QueueItem(cs[i], compare && ks[i] == k)
        {
          if q in r && q !in Pushed(ks[0], cs[0], k, st, compare) {
            assert q in SortedRange(ks[1..], cs[1..], k, st, compare);
            var j :| 0 <= j < |ks| - 1 && InRange(ks[1..][j], k, st, compare) && q == QueueItem(cs[1..][j], compare && ks[1..][j] == k);
            assert ks[1..][j] == ks[j + 1] && cs[1..][j] == cs[j + 1];
          }
          if exists i :: 0 <= i < |ks| && InRange(ks[i], k, st, compare) && q == QueueItem(cs[i], compare && ks[i] == k) {
            var i :| 0 <= i < |ks| && InRange(ks[i], k, st, compare) && q == QueueItem(cs[i], compare && ks[i] == k);
            if i > 0 {
              assert ks[1..][i - 1] == ks[i] && cs[1..][i - 1] == cs[i];
            }
          }
        }
      }
    }
  }

  /** In a strictly ascending key prefix, the child paired with byte b sits at b's index. */
  lemma SortedPairs(ks: seq<byte>, cs: seq<Iptr>, i: nat)
    requires |ks| == |cs| && StrictlySorted(ks) && i < |ks|
    ensures ks[i] in PairsOf(ks, cs) && PairsOf(ks, cs)[ks[i]] == cs[i]
  {
    PairsOfFirst(ks, cs, ks[i]);
  }

  lemma {:induction false} WideRangeMembers(n: Node, from: nat, to: nat, k: byte, compare: bool)
    requires WideShaped(n)
    requires from <= to <= 256
    ensures forall q :: q in WideRange(n, from, to, k, compare) <==>
              exists b: byte :: from <= b < to && b in Pairs(n) && q == QueueItem(Pairs(n)[b], compare && b == k)
    decreases (to as int) - (from as int)
  {
    if from < to {
      var last: byte := to - 1;
      WideRangeMembers(n, from, last, k, compare);
      SlotChildPairs(n, last);
      forall q | q in WideRange(n, from, to, k, compare)
        ensures exists b: byte :: from <= b < to && b in Pairs(n) && q == QueueItem(Pairs(n)[b], compare && b == k)
      {
        if q in SlotItem(n, last, k, compare) {
          assert last in Pairs(n) && q == QueueItem(Pairs(n)[last], compare && last == k);
        } else {
          assert q in WideRange(n, from, last, k, compare);
        }
      }
    }
  }

  /**
   * The range enumeration pushes exactly one item per qualifying key byte
   * the node holds, carrying that byte's child and flagged exact when the
   * byte is the search byte itself.
   */
  lemma ChildRangeMembers(n: Node, k: byte, st: int, compare: bool)
    requires WellFormed(n)
    requires compare ==> IsLess(st) || IsGreater(st)
    ensures forall q :: q in ChildRange(n, k, st, compare) <==>
              exists b :: b in Pairs(n) && InRange(b, k, st, compare) && q == QueueItem(Pairs(n)[b], compare && b == k)
  {
    match n {
      case Leaf(_, _, _, _, _) =>
      case Node4(h, ks, cs) => SortedMembers(n, ks[..h.numChildren], cs[..h.numChildren], k, st, compare);
      case Node16(h, ks, cs) => SortedMembers(n, ks[..h.numChildren], cs[..h.numChildren], k, st, compare);
      case Node48(_, _, _) =>
        WideRangeMembers(n, WideStart(k, st, compare), WideEnd(k, st, compare), k, compare);
      case Node256(_, _) =>
        WideRangeMembers(n, WideStart(k, st, compare), WideEnd(k, st, compare), k, compare);
    }
  }

  /**
   * Without comparison the enumeration does not depend on the search byte:
   * any two bytes give the same items, each child of the node, non-exact.
   */
  lemma UncomparedRangeIgnoresByte(n: Node, k1: byte, k2: byte, st: int)
    requires WellFormed(n)
    ensures forall q :: q in ChildRange(n, k1, st, false) <==> q in ChildRange(n, k2, st, false)
    ensures forall q :: q in ChildRange(n, k1, st, false) <==> exists b :: b in Pairs(n) && q == QueueItem(Pairs(n)[b], false)
  {
    ChildRangeMembers(n, k1, st, false);
    ChildRangeMembers(n, k2, st, false);
  }

  lemma SortedMembers(n: Node, ks: seq<byte>, cs: seq<Iptr>, k: byte, st: int, compare: bool)
    requires WellFormed(n) && (n.Node4? || n.Node16?)
    requires ks == n.keys[..n.hdr.numChildren] && cs == n.children[..n.hdr.numChildren]
    requires compare ==> IsLess(st) || IsGreater(st)
    ensures forall q :: q in SortedRange(ks, cs, k, st, compare) <==>
              exists b :: b in Pairs(n) && InRange(b, k, st, compare) && q == QueueItem(Pairs(n)[b], compare && b == k)
  {
    SortedRangeMembers(ks, cs, k, st, compare);
    assert Pairs(n) == PairsOf(ks, cs);
    forall q
      ensures q in SortedRange(ks, cs, k, st, compare) <==>
              exists b :: b in Pairs(n) && InRange(b, k, st, compare) && q == QueueItem(Pairs(n)[b], compare && b == k)
    {
      if q in SortedRange(ks, cs, k, st, compare) {
        var i :| 0 <= i < |ks| && InRange(ks[i], k, st, compare) && q == QueueItem(cs[i], compare && ks[i] == k);
        SortedPairs(ks, cs, i);
      }
      if exists b :: b in Pairs(n) && InRange(b, k, st, compare) && q == QueueItem(Pairs(n)[b], compare && b == k) {
        var b :| b in Pairs(n) && InRange(b, k, st, compare) && q == QueueItem(Pairs(n)[b], compare && b == k);
        PairsOfFirst(ks, cs, b);
        var i := FirstIndex(ks, b);
        assert InRange(ks[i], k, st, compare) && q == QueueItem(cs[i], compare && ks[i] == k);
      }
    }
  }

  // ------------------------------------------------------------------
  // Minimum leaf (art_utils.c:386-462)

  function FirstNonZero(ks: seq<byte>): (i: nat)
    ensures i <= |ks|
    ensures i < |ks| ==> ks[i] != 0
    ensures forall j :: 0 <= j < i ==> ks[j] == 0
  {
    if |ks| == 0 || ks[0] != 0 then 0 else 1 + FirstNonZero(ks[1..])
  }

  function FirstValid(cs: seq<Iptr>): (i: nat)
    ensures i <= |cs|
    ensures i < |cs| ==> IptrValid(cs[i])
    ensures forall j :: 0 <= j < i ==> !IptrValid(cs[j])
  {
    if |cs| == 0 || IptrValid(cs[0]) then 0 else 1 + FirstValid(cs[1..])
  }

  /**
   * The child the minimum-leaf descent follows: slot 0 of a Node4/16 (read
   * even when the node is empty), the child of the first nonzero Node48 map
   * entry, the first valid Node256 slot. When a Node48/256 has no child the
   * source's scan runs off the array: None.
   */
  function MinChild(n: Node): Option<Iptr>
    requires WellFormed(n)
  {
    match n
    case Leaf(_, _, _, _, _) => None
    case Node4(_, _, cs) => Some(cs[0])
    case Node16(_, _, cs) => Some(cs[0])
    case Node48(_, ks, cs) =>
      var i := FirstNonZero(ks);
      if i < 256 then Some(cs[ks[i] - 1]) else None
    case Node256(_, cs) =>
      var i := FirstValid(cs);
      if i < 256 then Some(cs[i]) else None
  }

  /** The descent follows the child of the smallest key byte the node holds. */
  lemma MinChildIsLeast(n: Node)
    requires WellFormed(n) && !n.Leaf? && Pairs(n) != map[]
    ensures MinChild(n).Some?
    ensures exists b :: b in Pairs(n) && MinChild(n).value == Pairs(n)[b] &&
                        forall b' :: b' in Pairs(n) ==> b <= b'
  {
    match n {
      case Node4(h, ks, cs) => SortedMinChild(ks[..h.numChildren], cs[..h.numChildren]);
      case Node16(h, ks, cs) => SortedMinChild(ks[..h.numChildren], cs[..h.numChildren]);
      case Node48(h, ks, cs) => MinChild48(n);
      case Node256(h, cs) => MinChild256(n);
    }
  }

  lemma MinChild48(n: Node)
    requires WellFormed(n) && n.Node48? && Pairs(n) != map[]
    ensures var i := FirstNonZero(n.keys);
      i < 256 && (i as byte) in Pairs(n) && MinChild(n) == Some(Pairs(n)[i as byte]) &&
      forall b' :: b' in Pairs(n) ==> i as byte <= b'
  {
    var b' :| b' in Pairs(n);
    assert n.keys[b'] != 0;
    var i := FirstNonZero(n.keys);
    assert i <= b' as nat;
    forall b' | b' in Pairs(n)
      ensures i <= b' as nat
    {
      assert n.keys[b'] != 0;
    }
  }

  lemma MinChild256(n: Node)
    requires WellFormed(n) && n.Node256? && Pairs(n) != map[]
    ensures var i := FirstValid(n.children);
      i < 256 && (i as byte) in Pairs(n) && MinChild(n) == Some(Pairs(n)[i as byte]) &&
      forall b' :: b' in Pairs(n) ==> i as byte <= b'
  {
    var b' :| b' in Pairs(n);
    assert IptrValid(n.children[b']);
    var i := FirstValid(n.children);
    assert i <= b' as nat;
    forall b' | b' in Pairs(n)
      ensures i <= b' as nat
    {
      assert IptrValid(n.children[b']);
    }
  }

  lemma SortedMinChild(ks: seq<byte>, cs: seq<Iptr>)
    requires |ks| == |cs| && StrictlySorted(ks) && PairsOf(ks, cs) != map[]
    ensures |ks| > 0 && ks[0] in PairsOf(ks, cs) && PairsOf(ks, cs)[ks[0]] == cs[0]
    ensures forall b' :: b' in PairsOf(ks, cs) ==> ks[0] <= b'
  {
    forall b' | b' in PairsOf(ks, cs)
      ensures ks[0] <= b'
    {
      PairsOfFirst(ks, cs, b');
    }
  }

  /** A Node48/256 without children leaves the descent nowhere to go. */
  lemma MinChildEmpty(n: Node)
    requires WellFormed(n) && (n.Node48? || n.Node256?)
    ensures MinChild(n).Some? <==> Pairs(n) != map[]
  {
    if MinChild(n).Some? {
      match n {
        case Node48(_, ks, _) =>
          var b: byte := FirstNonZero(ks);
          assert b in Pairs(n);
        case Node256(_, cs) =>
          var b: byte := FirstValid(cs);
          assert b in Pairs(n);
      }
    } else if Pairs(n) != map[] {
      MinChildIsLeast(n);
    }
  }

  /**
   * `_art_minimum_leaf`: follow MinChild until a leaf. A reference that
   * leads to no node, or a descent deeper than fuel levels, yields None.
   */
  function MinLeaf(pages: map<nat, Page>, n: Node, fuel: nat): (r: Option<Node>)
    requires StoreWellFormed(pages) && WellFormed(n)
    ensures r.Some? ==> r.value.Leaf? && WellFormed(r.value)
    ensures n.Leaf? ==> r == Some(n)
    decreases fuel
  {
    if n.Leaf? then Some(n)
    else if fuel == 0 then None
    else
      match MinChild(n)
      case None => None
      case Some(c) =>
        NodeAtWellFormed(pages, c);
        match NodeAt(pages, c)
        case None => None
        case Some(m) => MinLeaf(pages, m, fuel - 1)
  }

  /** The child-selection loops of `_art_minimum_leaf`. */
  method FindMinChild(n: Node) returns (r: Option<Iptr>)
    requires WellFormed(n)
    ensures r == MinChild(n)
  {
    match n {
      case Leaf(_, _, _, _, _) => r := None;
      case Node4(_, _, cs) => r := Some(cs[0]);
      case Node16(_, _, cs) => r := Some(cs[0]);
      case Node48(_, ks, cs) =>
        var idx := 0;
        while idx < 256 && ks[idx] == 0
          invariant 0 <= idx <= 256
          invariant forall j :: 0 <= j < idx ==> ks[j] == 0
        {
          idx := idx + 1;
        }
        assert idx == FirstNonZero(ks);
        if idx < 256 {
          r := Some(cs[ks[idx] - 1]);
        } else {
          r := None;
        }
      case Node256(_, cs) =>
        var idx := 0;
        while idx < 256 && !IptrValid(cs[idx])
          invariant 0 <= idx <= 256
          invariant forall j :: 0 <= j < idx ==> !IptrValid(cs[j])
        {
          idx := idx + 1;
        }
        assert idx == FirstValid(cs);
        if idx < 256 {
          r := Some(cs[idx]);
        } else {
          r := None;
        }
    }
  }

  method MinimumLeaf(pages: map<nat, Page>, n: Node) returns (r: Option<Node>)
    requires StoreWellFormed(pages) && WellFormed(n)
    ensures r == MinLeaf(pages, n, MAX_DEPTH)
  {
    var cur, fuel := n, MAX_DEPTH;
    while true
      invariant WellFormed(cur)
      invariant MinLeaf(pages, cur, fuel) == MinLeaf(pages, n, MAX_DEPTH)
      decreases fuel
    {
      if cur.Leaf? {
        return Some(cur);
      }
      if fuel == 0 {
        return None;
      }
      var c := FindMinChild(cur);
      if c.None? {
        return None;
      }
      NodeAtWellFormed(pages, c.value);
      var m := NodeAt(pages, c.value);
      if m.None? {
        return None;
      }
      cur, fuel := m.value, fuel - 1;
    }
  }

  // ------------------------------------------------------------------
  // Byte runs: leaf match, longest common prefix, prefix checks
  // (art_utils.c:465-531)

  /**
   * The first index in [from, to) where a (read from offset ao) and b (from
   * offset bo) differ, or from itself when to <= from, or to when they agree
   * throughout.
   */
  function Run(a: seq<byte>, ao: nat, b: seq<byte>, bo: nat, from: nat, to: int): (r: nat)
    requires ao + to <= |a| && bo + to <= |b|
    ensures from <= r && (r <= to || r == from)
    decreases (to as int) - (from as int)
  {
    if to <= from || a[ao + from] != b[bo + from] then from
    else Run(a, ao, b, bo, from + 1, to)
  }

  /** A run is a stretch of agreeing bytes that ends at a disagreement or at its bound. */
  lemma {:induction false} RunAgrees(a: seq<byte>, ao: nat, b: seq<byte>, bo: nat, from: nat, to: int)
    requires ao + to <= |a| && bo + to <= |b|
    ensures var r := Run(a, ao, b, bo, from, to);
            && (forall j :: ao + from <= j < ao + r ==> a[j] == b[bo - ao + j])
            && (r < to ==> a[ao + r] != b[bo + r])
    decreases (to as int) - (from as int)
  {
    if !(to <= from || a[ao + from] != b[bo + from]) {
      RunAgrees(a, ao, b, bo, from + 1, to);
    }
  }

  /** The comparison loop the helpers below share. */
  method ScanRun(a: seq<byte>, ao: nat, b: seq<byte>, bo: nat, from: nat, to: int) returns (r: nat)
    requires ao + to <= |a| && bo + to <= |b|
    ensures r == Run(a, ao, b, bo, from, to)
  {
    r := from;
    while r < to
      invariant from <= r && (r <= to || r == from)
      invariant Run(a, ao, b, bo, r, to) == Run(a, ao, b, bo, from, to)
      decreases (to as int) - (r as int)
    {
      if a[ao + r] != b[bo + r] {
        return;
      }
      r := r + 1;
    }
  }

  /** memcmp over equal lengths: zero iff equal, otherwise the sign of the first differing byte. */
  function Memcmp(a: seq<byte>, b: seq<byte>): (r: int)
    requires |a| == |b|
    ensures r == 0 <==> a == b
    ensures r != 0 ==> exists i :: 0 <= i < |a| && a[..i] == b[..i] && (r < 0 <==> a[i] < b[i])
  {
    var i := Run(a, 0, b, 0, 0, |a|);
    RunAgrees(a, 0, b, 0, 0, |a|);
    if i == |a| then
      assert a == b by {
        assert forall j :: 0 <= j < |a| ==> a[j] == b[j];
      }
      0
    else
      assert a[..i] == b[..i];
      CompareKey(a[i], b[i])
  }

  /** `_art_leaf_matches`: zero exactly when the leaf's key is the key. */
  function LeafMatches(leafKey: seq<byte>, key: seq<byte>): (r: int)
    ensures r == 0 <==> leafKey == key
  {
    if |leafKey| != |key| then 1 else Memcmp(leafKey, key)
  }

  /**
   * `_art_longest_common_prefix`: the length of the longest run, from
   * offset depth, on which the two keys agree.
   */
  function CommonPrefixLen(a: seq<byte>, b: seq<byte>, depth: nat): (r: nat)
    ensures r == 0 || (depth + r <= |a| && depth + r <= |b|)
    ensures forall j :: depth <= j < depth + r ==> a[j] == b[j]
    ensures depth + r < |a| && depth + r < |b| ==> a[depth + r] != b[depth + r]
  {
    RunAgrees(a, depth, b, depth, 0, Min(|a|, |b|) - depth);
    Run(a, depth, b, depth, 0, Min(|a|, |b|) - depth)
  }

  method LongestCommonPrefix(a: seq<byte>, b: seq<byte>, depth: nat) returns (r: nat)
    ensures r == CommonPrefixLen(a, b, depth)
  {
    var maxCmp := Min(|a|, |b|) - depth;
    r := ScanRun(a, depth, b, depth, 0, maxCmp);
  }

  /** How many inline prefix bytes the comparisons look at: min(prefix length, 8, bytes left in the key). */
  function InlineBound(h: Header, key: seq<byte>, depth: nat): int
  {
    Min(Min(h.prefixLen, MAX_PREFIX_KEY_LEN), |key| - depth)
  }

  /**
   * `_art_check_prefix`: how many of the inline prefix bytes, up to
   * InlineBound, match the key from depth.
   */
  function PrefixMatchLen(h: Header, key: seq<byte>, depth: nat): (r: nat)
    requires HeaderShaped(h)
    ensures r <= MAX_PREFIX_KEY_LEN && r <= h.prefixLen as nat && (r == 0 || depth + r <= |key|)
    ensures r <= InlineBound(h, key, depth) || r == 0
    ensures forall i :: 0 <= i < r ==> h.prefix[i] == key[depth + i]
    ensures r < InlineBound(h, key, depth) ==> h.prefix[r] != key[depth + r]
  {
    RunAgrees(h.prefix, 0, key, depth, 0, InlineBound(h, key, depth));
    Run(h.prefix, 0, key, depth, 0, InlineBound(h, key, depth))
  }

  method CheckPrefix(h: Header, key: seq<byte>, depth: nat) returns (r: nat)
    requires HeaderShaped(h)
    ensures r == PrefixMatchLen(h, key, depth)
  {
    var maxCmp := Min(Min(h.prefixLen, MAX_PREFIX_KEY_LEN), |key| - depth);
    r := ScanRun(h.prefix, 0, key, depth, 0, maxCmp);
  }

  /**
   * The second loop of `_art_prefix_mismatch`: the run, from position from,
   * on which the minimum leaf's key and the key agree, up to the end of the
   * shorter one.
   */
  function LeafRun(leafKey: seq<byte>, key: seq<byte>, depth: nat, from: nat): (r: nat)
    ensures from <= r && (r == from || depth + r <= Min(|leafKey|, |key|))
  {
    Run(leafKey, depth, key, depth, from, Min(|leafKey|, |key|) - depth)
  }

  /**
   * `_art_prefix_mismatch`: the inline bytes are compared first; when the
   * prefix is longer than 8 the comparison goes on against the node's
   * minimum leaf up to the end of the shorter key (not only to the end of
   * the prefix). None when the descent to the minimum leaf fails, where
   * the source dereferences a null leaf.
   */
  function MismatchAt(pages: map<nat, Page>, n: Node, key: seq<byte>, depth: nat): Option<nat>
    requires StoreWellFormed(pages) && WellFormed(n) && !n.Leaf? && depth <= |key|
  {
    var r1 := PrefixMatchLen(n.hdr, key, depth);
    if r1 < InlineBound(n.hdr, key, depth) || n.hdr.prefixLen as nat <= MAX_PREFIX_KEY_LEN then Some(r1)
    else
      match MinLeaf(pages, n, MAX_DEPTH)
      case None => None
      case Some(l) => Some(LeafRun(l.key, key, depth, r1))
  }

  /**
   * The mismatch position agrees with `_art_check_prefix` whenever the
   * prefix fits inline, lies within the key, and the inline prefix bytes
   * before it match the key while the byte at it, if inline, differs.
   */
  lemma MismatchAtFacts(pages: map<nat, Page>, n: Node, key: seq<byte>, depth: nat)
    requires StoreWellFormed(pages) && WellFormed(n) && !n.Leaf? && depth <= |key|
    ensures var r := MismatchAt(pages, n, key, depth);
      && (n.hdr.prefixLen as nat <= MAX_PREFIX_KEY_LEN ==> r == Some(PrefixMatchLen(n.hdr, key, depth)))
      && (r.Some? ==> depth + r.value <= |key|)
      && (r.Some? ==> forall i :: 0 <= i < Min(r.value, Min(MAX_PREFIX_KEY_LEN, n.hdr.prefixLen)) ==>
                        n.hdr.prefix[i] == key[depth + i])
      && (r.Some? && r.value < Min(MAX_PREFIX_KEY_LEN, n.hdr.prefixLen) && depth + r.value < |key| ==>
            n.hdr.prefix[r.value] != key[depth + r.value])
  {
    var h := n.hdr;
    var r1 := PrefixMatchLen(h, key, depth);
    var r := MismatchAt(pages, n, key, depth);
    if !(r1 < InlineBound(h, key, depth) || h.prefixLen as nat <= MAX_PREFIX_KEY_LEN) {
      var l := MinLeaf(pages, n, MAX_DEPTH);
      if l.Some? {
        assert r == Some(LeafRun(l.value.key, key, depth, r1));
        assert r1 == InlineBound(h, key, depth);
      }
    }
  }

  method PrefixMismatch(pages: map<nat, Page>, n: Node, key: seq<byte>, depth: nat) returns (r: Option<nat>)
    requires StoreWellFormed(pages) && WellFormed(n) && !n.Leaf? && depth <= |key|
    ensures r == MismatchAt(pages, n, key, depth)
  {
    var h := n.hdr;
    var maxCmp := Min(Min(MAX_PREFIX_KEY_LEN, h.prefixLen), |key| - depth);
    var idx := ScanRun(h.prefix, 0, key, depth, 0, maxCmp);
    assert maxCmp == InlineBound(h, key, depth) && idx == PrefixMatchLen(h, key, depth);
    if idx < maxCmp {
      return Some(idx);
    }
    if h.prefixLen as nat > MAX_PREFIX_KEY_LEN {
      var l := MinimumLeaf(pages, n);
      if l.None? {
        return None;
      }
      var lf := l.value;
      maxCmp := Min(|lf.key|, |key|) - depth;
      idx := ScanRun(lf.key, depth, key, depth, idx, maxCmp);
      assert idx == LeafRun(lf.key, key, depth, PrefixMatchLen(h, key, depth));
    }
    return Some(idx);
  }

}
