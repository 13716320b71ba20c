/**
 * Adding a child to an internal node, with the growth migrations
 * Node4 -> Node16 -> Node48 -> Node256 when a node is full, and
 * redirecting an existing child (art_insert.c:310-454).
 *
 * A node lives in page memory and these routines change it in place; a
 * call returns the node as it is afterwards and, when the node was full,
 * the larger node that replaces it (the source's non-NULL result).
 */
module ArtNodes {
  import opened ArtTypes
  import opened ArtUtils

  // ------------------------------------------------------------------
  // Counting lemmas for the Node48 and Node256 invariants

  lemma {:induction false} CountValidUpdate(cs: seq<Iptr>, i: nat, v: Iptr)
    requires i < |cs| && !IptrValid(cs[i]) && IptrValid(v)
    ensures CountValid(cs[i := v]) == CountValid(cs) + 1
  {
    var last := |cs| - 1;
    assert cs[i := v][..last] == if i == last then cs[..last] else cs[..last][i := v];
    if i < last {
      CountValidUpdate(cs[..last], i, v);
    }
  }

  lemma {:induction false} CountNonZeroUpdate(ks: seq<byte>, i: nat, v: byte)
    requires i < |ks| && ks[i] == 0 && v != 0
    ensures CountNonZero(ks[i := v]) == CountNonZero(ks) + 1
  {
    var last := |ks| - 1;
    assert ks[i := v][..last] == if i == last then ks[..last] else ks[..last][i := v];
    if i < last {
      CountNonZeroUpdate(ks[..last], i, v);
    }
  }

  lemma {:induction false} CountValidAll(cs: seq<Iptr>)
    requires AllValid(cs)
    ensures CountValid(cs) == |cs|
  {
    if |cs| > 0 {
      CountValidAll(cs[..|cs| - 1]);
    }
  }

  /** Valid slots and nonzero map entries in the same places count the same. */
  lemma {:induction false} CountValidNonZero(cs: seq<Iptr>, ks: seq<byte>)
    requires |cs| == |ks| && forall i :: 0 <= i < |cs| ==> (IptrValid(cs[i]) <==> ks[i] != 0)
    ensures CountValid(cs) == CountNonZero(ks)
  {
    if |cs| > 0 {
      CountValidNonZero(cs[..|cs| - 1], ks[..|ks| - 1]);
    }
  }

  lemma {:induction false} CountValidPadded(cs: seq<Iptr>, pad: nat)
    requires AllValid(cs)
    ensures CountValid(cs + ZeroIptrs(pad)) == |cs|
    decreases pad
  {
    if pad == 0 {
      assert cs + ZeroIptrs(0) == cs;
      CountValidAll(cs);
    } else {
      assert (cs + ZeroIptrs(pad))[..|cs| + pad - 1] == cs + ZeroIptrs(pad - 1);
      CountValidPadded(cs, pad - 1);
    }
  }

  // ------------------------------------------------------------------
  // Node4/16: sorted insertion

  /**
   * The memmove that opens slot idx in the first nc entries, then the
   * store of v there; entries past nc are untouched.
   */
  method ShiftInsert<T>(a: array<T>, nc: nat, idx: nat, v: T)
    requires idx <= nc < a.Length
    modifies a
    ensures a[..] == old(a[..idx]) + [v] + old(a[idx..nc]) + old(a[nc + 1..])
  {
    ghost var before := a[..];
    var j := nc;
    while j > idx
      invariant idx <= j <= nc
      invariant forall m :: 0 <= m <= j ==> a[m] == before[m]
      invariant forall m :: j < m <= nc ==> a[m] == before[m - 1]
      invariant forall m :: nc < m < a.Length ==> a[m] == before[m]
    {
      a[j] := a[j - 1];
      j := j - 1;
    }
    a[idx] := v;
    assert a[..] == before[..idx] + [v] + before[idx..nc] + before[nc + 1..];
  }

  /** Strictly ascending keys pair each key with the child at its index, and nothing else. */
  lemma SortedPairsDomain(ks: seq<byte>, cs: seq<Iptr>)
    requires |ks| == |cs| && StrictlySorted(ks)
    ensures forall b :: b in PairsOf(ks, cs) <==> b in ks
    ensures forall i :: 0 <= i < |ks| ==> PairsOf(ks, cs)[ks[i]] == cs[i]
  {
    forall b
      ensures b in PairsOf(ks, cs) <==> b in ks
    {
      PairsOfFirst(ks, cs, b);
    }
    forall i | 0 <= i < |ks|
      ensures PairsOf(ks, cs)[ks[i]] == cs[i]
    {
      SortedPairs(ks, cs, i);
    }
  }

  /** Pairs of a concatenation: an earlier occurrence of a byte wins over a later one. */
  lemma {:induction false} PairsOfAppend(a: seq<byte>, ca: seq<Iptr>, b: seq<byte>, cb: seq<Iptr>)
    requires |a| == |ca| && |b| == |cb|
    ensures PairsOf(a + b, ca + cb) == PairsOf(b, cb) + PairsOf(a, ca)
    decreases |a|
  {
    if |a| == 0 {
      assert a + b == b && ca + cb == cb;
    } else {
      assert (a + b)[1..] == a[1..] + b && (ca + cb)[1..] == ca[1..] + cb;
      PairsOfAppend(a[1..], ca[1..], b, cb);
    }
  }

  /** Opening a slot at idx for a key the first idx entries do not hold adds exactly that pair. */
  lemma InsertedPairs(ks: seq<byte>, cs: seq<Iptr>, idx: nat, key: byte, child: Iptr)
    requires |ks| == |cs| && idx <= |ks| && key !in ks[..idx]
    ensures PairsOf(ks[..idx] + [key] + ks[idx..], cs[..idx] + [child] + cs[idx..]) == PairsOf(ks, cs)[key := child]
  {
    var a, ca, b, cb := ks[..idx], cs[..idx], ks[idx..], cs[idx..];
    PairsOfAppend(a + [key], ca + [child], b, cb);
    PairsOfAppend(a, ca, [key], [child]);
    PairsOfAppend(a, ca, b, cb);
    assert a + b == ks && ca + cb == cs;
    PairsOfFirst(a, ca, key);
    assert PairsOf([key], [child]) == map[key := child];
    MapSplice(PairsOf(a, ca), PairsOf(b, cb), key, child);
  }

  lemma MapSplice(pa: map<byte, Iptr>, pb: map<byte, Iptr>, key: byte, child: Iptr)
    requires key !in pa
    ensures pb + (map[key := child] + pa) == (pb + pa)[key := child]
  {
  }

  /** The new key between the smaller keys and the larger ones keeps the keys ascending. */
  lemma InsertedSorted(s: seq<byte>, idx: nat, key: byte)
    requires StrictlySorted(s) && idx <= |s|
    requires forall m :: 0 <= m < idx ==> s[m] < key
    requires idx < |s| ==> key < s[idx]
    ensures StrictlySorted(s[..idx] + [key] + s[idx..])
  {
    var t := s[..idx] + [key] + s[idx..];
    forall i, j | 0 <= i < j < |t|
      ensures t[i] < t[j]
    {
      if i < idx && j > idx {
        assert t[i] == s[i] && t[j] == s[j - 1];
        assert s[i] < key && key < s[idx] <= s[j - 1];
      } else if i == idx && j > idx {
        assert t[j] == s[j - 1] && s[idx] <= s[j - 1];
      } else if j > idx {
        assert t[i] == s[i - 1] && t[j] == s[j - 1];
      }
    }
  }

  /** The occupied prefix and the untouched tail of a sequence with v spliced in at idx. */
  lemma Spliced<T>(s: seq<T>, nc: nat, idx: nat, v: T, t: seq<T>)
    requires idx <= nc < |s| && t == s[..idx] + [v] + s[idx..nc] + s[nc + 1..]
    ensures t[..nc + 1] == s[..nc][..idx] + [v] + s[..nc][idx..] && t[nc + 1..] == s[nc + 1..]
  {
  }

  lemma InsertedValid(cs: seq<Iptr>, idx: nat, child: Iptr)
    requires AllValid(cs) && idx <= |cs| && IptrValid(child)
    ensures AllValid(cs[..idx] + [child] + cs[idx..])
  {
    var t := cs[..idx] + [child] + cs[idx..];
    forall m | 0 <= m < |t|
      ensures IptrValid(t[m])
    {
      assert m < idx ==> t[m] == cs[m];
      assert m > idx ==> t[m] == cs[m - 1];
    }
  }

  /** Where a key absent from ks goes: after every smaller key, before the first larger one. */
  method InsertPos(ks: seq<byte>, key: byte) returns (idx: nat)
    requires key !in ks
    ensures idx <= |ks|
    ensures forall m :: 0 <= m < idx ==> ks[m] < key
    ensures idx < |ks| ==> key < ks[idx]
  {
    idx := 0;
    while idx < |ks| && !(key < ks[idx])
      invariant idx <= |ks|
      invariant forall m :: 0 <= m < idx ==> ks[m] < key
    {
      idx := idx + 1;
    }
  }

  /**
   * The Node4/16 below-capacity insertion: find the first key greater than
   * the new one, shift the rest right, store the key and child there.
   */
  method SortedInsert(ks: seq<byte>, cs: seq<Iptr>, nc: nat, key: byte, child: Iptr)
    returns (ks2: seq<byte>, cs2: seq<Iptr>)
    requires nc < |ks| == |cs|
    requires StrictlySorted(ks[..nc]) && AllValid(cs[..nc]) && key !in ks[..nc] && IptrValid(child)
    ensures |ks2| == |ks| && |cs2| == |cs|
    ensures StrictlySorted(ks2[..nc + 1]) && AllValid(cs2[..nc + 1])
    ensures PairsOf(ks2[..nc + 1], cs2[..nc + 1]) == PairsOf(ks[..nc], cs[..nc])[key := child]
    ensures ks2[nc + 1..] == ks[nc + 1..] && cs2[nc + 1..] == cs[nc + 1..]
  {
    var idx := InsertPos(ks[..nc], key);
    var ka := new byte[|ks|](i requires 0 <= i < |ks| => ks[i]);
    var ca := new Iptr[|cs|](i requires 0 <= i < |cs| => cs[i]);
    assert ka[..] == ks && ca[..] == cs;
    ShiftInsert(ka, nc, idx, key);
    ShiftInsert(ca, nc, idx, child);
    ks2, cs2 := ka[..], ca[..];
    var keys, children := ks[..nc], cs[..nc];
    Spliced(ks, nc, idx, key, ks2);
    Spliced(cs, nc, idx, child, cs2);
    InsertedSorted(keys, idx, key);
    InsertedPairs(keys, children, idx, key, child);
    InsertedValid(children, idx, child);
  }

  /** A Node4/16 prefix holds key k exactly when k is among its pairs. */
  lemma SortedKeyIn(n: Node, key: byte)
    requires WellFormed(n) && (n.Node4? || n.Node16?)
    ensures key in n.keys[..n.hdr.numChildren] <==> key in Pairs(n)
  {
    SortedPairsDomain(n.keys[..n.hdr.numChildren], n.children[..n.hdr.numChildren]);
  }

  // ------------------------------------------------------------------
  // The four variants

  /**
   * `_add_child_node256`: store the child in its slot and count it; the
   * uint8 count wraps to 0 when the 256th child arrives.
   */
  method AddChild256(n: Node, key: byte, child: Iptr) returns (r: Node)
    requires n.Node256? && WellFormed(n) && key !in Pairs(n) && IptrValid(child)
    ensures r.Node256? && WellFormed(r)
    ensures r.hdr == n.hdr.(numChildren := (n.hdr.numChildren as nat + 1) % 256)
    ensures Pairs(r) == Pairs(n)[key := child]
  {
    CountValidUpdate(n.children, key, child);
    r := Node256(n.hdr.(numChildren := (n.hdr.numChildren as nat + 1) % 256), n.children[key := child]);
    assert Pairs(r) == Pairs(n)[key := child];
  }

  /** The first free Node48 child slot, which a non-full node has. */
  method FreeSlot48(cs: seq<Iptr>, nc: nat) returns (idx: nat)
    requires |cs| == 48 && CountValid(cs) == nc < 48
    ensures idx < 48 && !IptrValid(cs[idx])
  {
    if AllValid(cs) {
      CountValidAll(cs);
    }
    idx := 0;
    while IptrValid(cs[idx])
      invariant idx < 48
      invariant exists j :: idx <= j < 48 && !IptrValid(cs[j])
      decreases 48 - idx
    {
      idx := idx + 1;
    }
  }

  /** The Node48 to Node256 migration: each mapped key's child moves to the key's own slot. */
  method Grow48(n: Node) returns (g: Node)
    requires n.Node48? && WellFormed(n) && n.hdr.numChildren == 48
    ensures g.Node256? && WellFormed(g) && Pairs(g) == Pairs(n)
    ensures g.hdr == CopyHeader(EmptyHeader, n.hdr)
  {
    var ks, cs := n.keys, n.children;
    var ch := new Iptr[256](_ => ZeroIptr);
    var i := 0;
    while i < 256
      invariant 0 <= i <= 256
      invariant forall j :: 0 <= j < i ==> ch[j] == if ks[j] != 0 then cs[ks[j] - 1] else ZeroIptr
      invariant forall j :: i <= j < 256 ==> ch[j] == ZeroIptr
    {
      if ks[i] != 0 {
        ch[i] := cs[ks[i] - 1];
      }
      i := i + 1;
    }
    CountValidNonZero(ch[..], ks);
    g := Node256(CopyHeader(EmptyHeader, n.hdr), ch[..]);
    assert Pairs(g) == Pairs(n);
  }

  /**
   * `_add_child_node48`: below capacity the child takes the first free
   * slot and the key map points at it; when full, the node migrates to a
   * Node256 that then receives the child, and the node itself is left as
   * it was.
   */
  method AddChild48(n: Node, key: byte, child: Iptr) returns (r: Node, grown: Option<Node>)
    requires n.Node48? && WellFormed(n) && key !in Pairs(n) && IptrValid(child)
    ensures n.hdr.numChildren < 48 ==>
              grown.None? && r.Node48? && WellFormed(r) && Pairs(r) == Pairs(n)[key := child] &&
              r.hdr == n.hdr.(numChildren := n.hdr.numChildren + 1)
    ensures n.hdr.numChildren == 48 ==>
              r == n && grown.Some? && grown.value.Node256? && WellFormed(grown.value) &&
              Pairs(grown.value) == Pairs(n)[key := child] &&
              grown.value.hdr == CopyHeader(EmptyHeader, n.hdr).(numChildren := 49)
  {
    var h, ks, cs := n.hdr, n.keys, n.children;
    if h.numChildren < 48 {
      var idx := FreeSlot48(cs, h.numChildren);
      assert ks[key] == 0;
      CountValidUpdate(cs, idx, child);
      CountNonZeroUpdate(ks, key, idx + 1);
      r := Node48(h.(numChildren := h.numChildren + 1), ks[key := idx + 1], cs[idx := child]);
      Stored48(n, r, key, idx, child);
      grown := None;
    } else {
      var g := Grow48(n);
      var g2 := AddChild256(g, key, child);
      r, grown := n, Some(g2);
    }
  }

  /** Mapping a new key to a free slot keeps the Node48 map consistent and one-to-one. */
  lemma Stored48(n: Node, r: Node, key: byte, idx: nat, child: Iptr)
    requires n.Node48? && WellFormed(n) && n.keys[key] == 0 && IptrValid(child)
    requires idx < 48 && !IptrValid(n.children[idx])
    requires r.Node48? && r.hdr.prefix == n.hdr.prefix && r.keys == n.keys[key := idx + 1] && r.children == n.children[idx := child]
    ensures MapConsistent(r.keys, r.children) && MapInjective(r.keys)
    ensures Pairs(r) == Pairs(n)[key := child]
  {
    var ks, cs, ks2, cs2 := n.keys, n.children, r.keys, r.children;
    assert forall k :: 0 <= k < 256 && ks[k] != 0 ==> ks[k] - 1 != idx;
    assert MapInjective(ks2) by {
      forall k1, k2 | 0 <= k1 < 256 && 0 <= k2 < 256 && MapEntry(ks2, k1) != 0 && MapEntry(ks2, k1) == MapEntry(ks2, k2)
        ensures k1 == k2
      {
        if k1 != key && k2 != key {
          assert MapEntry(ks, k1) == MapEntry(ks, k2);
        }
      }
    }
  }

  /** The Node16 to Node48 migration: the children keep their slots and the key map names them. */
  method Grow16(n: Node) returns (g: Node)
    requires n.Node16? && WellFormed(n) && n.hdr.numChildren == 16
    ensures g.Node48? && WellFormed(g) && Pairs(g) == Pairs(n)
    ensures g.hdr == CopyHeader(EmptyHeader, n.hdr)
  {
    var ks, cs := n.keys, n.children;
    assert ks[..16] == ks && cs[..16] == cs;
    var km := KeyMap16(ks);
    var cs48 := cs + ZeroIptrs(32);
    CountValidPadded(cs, 32);
    KeyMapInjective(km, ks);
    g := Node48(CopyHeader(EmptyHeader, n.hdr), km, cs48);
    KeyMapPairs(ks, cs, km);
  }

  /** The key map after the first i of sixteen keys: key byte ks[j] names slot j for j < i. */
  predicate KeyMapUpTo(ks: seq<byte>, km: seq<byte>, i: nat)
    requires |ks| == 16 && |km| == 256 && i <= 16
  {
    && (forall b :: 0 <= b < 256 && km[b] != 0 ==> 1 <= km[b] <= i && ks[km[b] - 1] == b)
    && (forall j :: 0 <= j < i ==> km[ks[j]] == j + 1)
    && CountNonZero(km) == i
  }

  lemma KeyMapStep(ks: seq<byte>, km: seq<byte>, i: nat)
    requires |ks| == 16 && |km| == 256 && i < 16 && StrictlySorted(ks) && KeyMapUpTo(ks, km, i)
    ensures KeyMapUpTo(ks, km[ks[i] := i + 1], i + 1)
  {
    assert km[ks[i]] == 0;
    CountNonZeroUpdate(km, ks[i], i + 1);
  }

  /** The Node48 key map for sixteen ascending keys: key byte ks[j] names slot j. */
  method KeyMap16(ks: seq<byte>) returns (km: seq<byte>)
    requires |ks| == 16 && StrictlySorted(ks)
    ensures |km| == 256
    ensures forall b :: 0 <= b < 256 && km[b] != 0 ==> km[b] <= 16 && ks[km[b] - 1] == b
    ensures forall j :: 0 <= j < 16 ==> km[ks[j]] == j + 1
    ensures CountNonZero(km) == 16
  {
    var k48 := new byte[256](_ => 0);
    CountNonZeroNone(k48[..]);
    var i := 0;
    while i < 16
      invariant 0 <= i <= 16
      invariant KeyMapUpTo(ks, k48[..], i)
    {
      KeyMapStep(ks, k48[..], i);
      k48[ks[i]] := i + 1;
      i := i + 1;
    }
    km := k48[..];
  }

  lemma KeyMapInjective(km: seq<byte>, ks: seq<byte>)
    requires |km| == 256 && |ks| == 16
    requires forall b :: 0 <= b < 256 && km[b] != 0 ==> km[b] <= 16 && ks[km[b] - 1] == b
    ensures MapInjective(km)
  {
    forall k1, k2 | 0 <= k1 < 256 && 0 <= k2 < 256 && MapEntry(km, k1) != 0 && MapEntry(km, k1) == MapEntry(km, k2)
      ensures k1 == k2
    {
      assert ks[km[k1] - 1] == k1 && ks[km[k2] - 1] == k2;
    }
  }

  lemma KeyMapPairs(ks: seq<byte>, cs: seq<Iptr>, km: seq<byte>)
    requires |km| == 256 && |ks| == 16 == |cs| && StrictlySorted(ks)
    requires forall b :: 0 <= b < 256 && km[b] != 0 ==> km[b] <= 16 && ks[km[b] - 1] == b
    requires forall j :: 0 <= j < 16 ==> km[ks[j]] == j + 1
    ensures (map k: byte | 0 <= k < 256 && km[k] != 0 && km[k] <= 48 :: (cs + ZeroIptrs(32))[km[k] - 1]) == PairsOf(ks, cs)
  {
    var m := map k: byte | 0 <= k < 256 && km[k] != 0 && km[k] <= 48 :: (cs + ZeroIptrs(32))[km[k] - 1];
    var p := PairsOf(ks, cs);
    forall b: byte
      ensures (b in m <==> b in p) && (b in m ==> m[b] == p[b])
    {
      KeyMapAt(ks, cs, km, b);
    }
    assert m == p;
  }

  /** One byte of the built key map: it names a slot iff the byte is a key, and that slot holds the key's child. */
  lemma KeyMapAt(ks: seq<byte>, cs: seq<Iptr>, km: seq<byte>, b: byte)
    requires |km| == 256 && |ks| == 16 == |cs| && StrictlySorted(ks)
    requires forall b :: 0 <= b < 256 && km[b] != 0 ==> km[b] <= 16 && ks[km[b] - 1] == b
    requires forall j :: 0 <= j < 16 ==> km[ks[j]] == j + 1
    ensures km[b] != 0 <==> b in PairsOf(ks, cs)
    ensures km[b] != 0 ==> km[b] <= 48 && (cs + ZeroIptrs(32))[km[b] - 1] == PairsOf(ks, cs)[b]
  {
    SortedPairsDomain(ks, cs);
    if b in ks {
      var j :| 0 <= j < 16 && ks[j] == b;
      assert km[b] == j + 1;
    }
    if km[b] != 0 {
      var j := km[b] - 1;
      assert j < 16 && ks[j] == b;
      assert (cs + ZeroIptrs(32))[j] == cs[j];
    }
  }

  /**
   * `_add_child_node16`: below capacity a sorted insertion; when full,
   * the node migrates to a Node48 that then receives the child, and the
   * node itself is left as it was.
   */
  method AddChild16(n: Node, key: byte, child: Iptr) returns (r: Node, grown: Option<Node>)
    requires n.Node16? && WellFormed(n) && key !in Pairs(n) && IptrValid(child)
    ensures n.hdr.numChildren < 16 ==>
              grown.None? && r.Node16? && WellFormed(r) && Pairs(r) == Pairs(n)[key := child] &&
              r.hdr == n.hdr.(numChildren := n.hdr.numChildren + 1)
    ensures n.hdr.numChildren == 16 ==>
              r == n && grown.Some? && grown.value.Node48? && WellFormed(grown.value) &&
              Pairs(grown.value) == Pairs(n)[key := child] &&
              grown.value.hdr == CopyHeader(EmptyHeader, n.hdr).(numChildren := 17)
  {
    var h := n.hdr;
    if h.numChildren < 16 {
      SortedKeyIn(n, key);
      var ks2, cs2 := SortedInsert(n.keys, n.children, h.numChildren, key, child);
      r := Node16(h.(numChildren := h.numChildren + 1), ks2, cs2);
      grown := None;
    } else {
      var g := Grow16(n);
      var r48, g2 := AddChild48(g, key, child);
      r, grown := n, Some(r48);
    }
  }

  /** The Node4 to Node16 migration: the four pairs are copied into a zeroed Node16. */
  function Grow4(n: Node): (g: Node)
    requires n.Node4? && WellFormed(n) && n.hdr.numChildren == 4
    ensures g.Node16? && WellFormed(g) && Pairs(g) == Pairs(n) && g.hdr.numChildren == 4
  {
    var g := Node16(CopyHeader(EmptyHeader, n.hdr), n.keys + Zeros(12), n.children + ZeroIptrs(12));
    assert g.keys[..4] == n.keys[..4] && g.children[..4] == n.children[..4];
    g
  }

  /**
   * `_add_child_node4`: below capacity a sorted insertion; when full, the
   * node migrates to a Node16 that then receives the child, and the node
   * itself is left as it was.
   */
  method AddChild4(n: Node, key: byte, child: Iptr) returns (r: Node, grown: Option<Node>)
    requires n.Node4? && WellFormed(n) && key !in Pairs(n) && IptrValid(child)
    ensures n.hdr.numChildren < 4 ==>
              grown.None? && r.Node4? && WellFormed(r) && Pairs(r) == Pairs(n)[key := child] &&
              r.hdr == n.hdr.(numChildren := n.hdr.numChildren + 1)
    ensures n.hdr.numChildren == 4 ==>
              r == n && grown.Some? && grown.value.Node16? && WellFormed(grown.value) &&
              Pairs(grown.value) == Pairs(n)[key := child] &&
              grown.value.hdr == CopyHeader(EmptyHeader, n.hdr).(numChildren := 5)
  {
    var h := n.hdr;
    if h.numChildren < 4 {
      SortedKeyIn(n, key);
      var ks2, cs2 := SortedInsert(n.keys, n.children, h.numChildren, key, child);
      r := Node4(h.(numChildren := h.numChildren + 1), ks2, cs2);
      grown := None;
    } else {
      var g := Grow4(n);
      var r16, g2 := AddChild16(g, key, child);
      r, grown := n, Some(r16);
    }
  }

  /** The child capacity of each internal variant. */
  function Capacity(n: Node): nat
  {
    match n
    case Leaf(_, _, _, _, _) => 0
    case Node4(_, _, _) => 4
    case Node16(_, _, _) => 16
    case Node48(_, _, _) => 48
    case Node256(_, _) => 256
  }

  /**
   * `_add_child`: the new pair is added, and nothing else changes in the
   * node's pairs. A full Node4/16/48 is left as it was and replaced by the
   * next larger variant, which carries the header (parent, prefix) and
   * every old pair plus the new one.
   */
  method AddChild(n: Node, key: byte, child: Iptr) returns (r: Node, grown: Option<Node>)
    requires !n.Leaf? && WellFormed(n) && key !in Pairs(n) && IptrValid(child)
    ensures grown.None? <==> n.Node256? || n.hdr.numChildren as nat < Capacity(n)
    ensures grown.None? ==> Tag(r) == Tag(n) && WellFormed(r) && Pairs(r) == Pairs(n)[key := child] &&
                            r.hdr == n.hdr.(numChildren := (n.hdr.numChildren as nat + 1) % 256)
    ensures grown.Some? ==> r == n && Tag(grown.value) == Tag(n) + 1 && WellFormed(grown.value) &&
                            Pairs(grown.value) == Pairs(n)[key := child] &&
                            grown.value.hdr == CopyHeader(EmptyHeader, n.hdr).(numChildren := n.hdr.numChildren + 1)
  {
    match n {
      case Node4(_, _, _) => r, grown := AddChild4(n, key, child);
      case Node16(_, _, _) => r, grown := AddChild16(n, key, child);
      case Node48(_, _, _) => r, grown := AddChild48(n, key, child);
      case Node256(_, _) =>
        r := AddChild256(n, key, child);
        grown := None;
    }
  }

  /** A migration always needs exactly the aligned size difference, so the in-place rewrite fits. */
  lemma GrowthSize(n: Node, g: Node)
    requires (n.Node4? && g.Node16?) || (n.Node16? && g.Node48?) || (n.Node48? && g.Node256?)
    ensures NodeSize(n) < NodeSize(g)
    ensures MaxAlign(NodeSize(g) - NodeSize(n)) == MaxAlign(NodeSize(g)) - MaxAlign(NodeSize(n))
  {
  }

  /**
   * `_replace_child_iptr`: the slot `_art_find_child_equal` locates for key
   * now holds iptr. None when there is no such slot (the source then
   * writes through a NULL pointer).
   */
  method ReplaceChild(n: Node, key: byte, iptr: Iptr) returns (r: Option<Node>)
    requires WellFormed(n) && IptrValid(iptr)
    ensures r.Some? <==> key in Pairs(n)
    ensures r.Some? ==> Tag(r.value) == Tag(n) && WellFormed(r.value) && Pairs(r.value) == Pairs(n)[key := iptr]
    ensures r.Some? ==> r.value.hdr == n.hdr
  {
    ChildEqualIsPairs(n, key);
    match n {
      case Leaf(_, _, _, _, _) => r := None;
      case Node4(h, ks, cs) =>
        var i := FirstIndex(ks[..h.numChildren], key);
        if i < h.numChildren as nat {
          ReplacedPrefix(ks, cs, h.numChildren, i, iptr);
          r := Some(Node4(h, ks, cs[i := iptr]));
        } else {
          r := None;
        }
      case Node16(h, ks, cs) =>
        var i := FirstIndex(ks[..h.numChildren], key);
        if i < h.numChildren as nat {
          ReplacedPrefix(ks, cs, h.numChildren, i, iptr);
          r := Some(Node16(h, ks, cs[i := iptr]));
        } else {
          r := None;
        }
      case Node48(h, ks, cs) =>
        if ks[key] != 0 {
          var slot := ks[key] - 1;
          r := Some(Node48(h, ks, cs[slot := iptr]));
          Replaced48(n, r.value, key, iptr);
        } else {
          r := None;
        }
      case Node256(h, cs) =>
        if IptrValid(cs[key]) {
          r := Some(Node256(h, cs[key := iptr]));
          Replaced256(n, r.value, key, iptr);
        } else {
          r := None;
        }
    }
  }

  lemma Replaced48(n: Node, r: Node, key: byte, iptr: Iptr)
    requires n.Node48? && WellFormed(n) && n.keys[key] != 0 && IptrValid(iptr)
    requires r == Node48(n.hdr, n.keys, n.children[n.keys[key] - 1 := iptr])
    ensures WellFormed(r) && Pairs(r) == Pairs(n)[key := iptr]
  {
    var ks := n.keys;
    CountValidSame(n.children, ks[key] - 1, iptr);
    forall k: byte | k in Pairs(n) && k != key
      ensures Pairs(r)[k] == Pairs(n)[k]
    {
      assert MapEntry(ks, k) != MapEntry(ks, key);
    }
  }

  lemma Replaced256(n: Node, r: Node, key: byte, iptr: Iptr)
    requires n.Node256? && WellFormed(n) && IptrValid(n.children[key]) && IptrValid(iptr)
    requires r == Node256(n.hdr, n.children[key := iptr])
    ensures WellFormed(r) && Pairs(r) == Pairs(n)[key := iptr]
  {
    CountValidSame(n.children, key, iptr);
  }

  lemma {:induction false} CountValidSame(cs: seq<Iptr>, i: nat, v: Iptr)
    requires i < |cs| && IptrValid(cs[i]) && IptrValid(v)
    ensures CountValid(cs[i := v]) == CountValid(cs)
  {
    var last := |cs| - 1;
    assert cs[i := v][..last] == if i == last then cs[..last] else cs[..last][i := v];
    if i < last {
      CountValidSame(cs[..last], i, v);
    }
  }

  /** Redirecting the child at index i of ascending keys changes exactly the pair of ks[i]. */
  lemma {:induction false} PairsOfUpdate(ks: seq<byte>, cs: seq<Iptr>, i: nat, v: Iptr)
    requires |ks| == |cs| && i < |ks| && StrictlySorted(ks)
    ensures PairsOf(ks, cs[i := v]) == PairsOf(ks, cs)[ks[i] := v]
    decreases |ks|
  {
    assert cs[i := v][1..] == if i == 0 then cs[1..] else cs[1..][i - 1 := v];
    if i > 0 {
      assert StrictlySorted(ks[1..]) && ks[0] != ks[i];
      PairsOfUpdate(ks[1..], cs[1..], i - 1, v);
    }
  }

  lemma ReplacedPrefix(ks: seq<byte>, cs: seq<Iptr>, nc: nat, i: nat, v: Iptr)
    requires nc <= |ks| == |cs| && i < nc && StrictlySorted(ks[..nc]) && AllValid(cs[..nc]) && IptrValid(v)
    ensures AllValid(cs[i := v][..nc])
    ensures PairsOf(ks[..nc], cs[i := v][..nc]) == PairsOf(ks[..nc], cs[..nc])[ks[i] := v]
  {
    assert cs[i := v][..nc] == cs[..nc][i := v];
    PairsOfUpdate(ks[..nc], cs[..nc], i, v);
  }
}
