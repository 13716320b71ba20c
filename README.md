# pg_art in Dafny

pg_art is a PostgreSQL index access method that keeps an Adaptive Radix
Tree (ART) in 8 KB pages. This project models the sequential,
byte-level heart of it:

- the node layouts and their byte helpers (`art.h`, `art_utils.c`);
- the insertion engine of the index build (`art_insert.c`);
- the page-entry bookkeeping (`art_pageops.c`);
- the search and the tuple stream of a scan (`art_scan.c`);
- the key encoding (`art.c`).

It proves what that code promises of each step.

Modules, one per file:

| module | file | models |
|---|---|---|
| `ArtTypes` | art_types.dfy | `art.h`: item pointers, the five node variants, the well-formedness invariant, data and metadata pages, the reserved blocks |
| `ArtKey` | art_key.dfy | `_art_form_key` and `_art_compare_key` |
| `ArtUtils` | art_utils.dfy | `art_utils.c`: allocation, sizing, header copy, child lookup, range enumeration, minimum leaf, prefix comparisons |
| `BufPage` | bufpage.dfy | the PostgreSQL page primitives the core calls, modelled on a slot sequence and the free gap |
| `ArtNodes` | art_nodes.dfy | `_add_child_node4/16/48/256`, `_add_child`, `_replace_child_iptr` |
| `ArtPageOps` | art_pageops.dfy | `art_pageops.c`: page entries as objects, the page list, release, load, copy and flush against a buffer pool |
| `ArtStore` | art_store.dfy | the store seen slot by slot: the (key, locator) pairs its leaves hold, and leaf-chain links |
| `ArtInsert` | art_insert.dfy | `art_insert.c`: the build state as a class over a map from block number to page, page placement, leaf update and chaining, leaf and prefix splits, growth, the descent, and the accept rules |
| `ArtScan` | art_scan.dfy | `art_scan.c`: the search as a specification function and as a method, and the state that `artgettuple` steps through |

How the model is set up:

- **Node references.** A reference is a `(block, offset)` pair, looked up
  in a `map<nat, Page>` (`NodeAt`).
- **The heart of the insertion proofs.** `ArtInsert.ArtState.Contents()`
  is the multiset of (key, locator) pairs held by the store's leaves. Every
  insertion path proves that it adds exactly the new pair, or that it
  changes nothing when the source would read past what it has. When that
  happens is stated outright: the descent stops (`Stuck`) exactly when the
  ghost predicate `ArtInsert.Blocked` holds of the store it starts from.
- **The search.** `ArtScan` defines the search as a function
  (`SearchFrom`, `InnerFrom`, `BelowFrom` and `Collect`). The recursive
  method is proved to add exactly that function's result to the leaf queue.
  The function is proved sound: every queued leaf has the key in equality
  mode, and every queued reference is a leaf in range mode.
- **Undefined behaviour as an outcome.** Where the C code would
  dereference a dangling reference, read past the search key, or read past
  the whole data array of a leaf (its key followed by its locators), the
  model returns `Stuck` and leaves the state unchanged. The affected operations are the
  insert paths, `GetTuple`'s leaf read and the search's `None`. One read
  past the search key is not `Stuck`: a range step that does not compare
  still reads `key[depth]` (art_scan.c:186-189) but never uses it, so
  `ChildItems` passes byte 0 there and goes on.

## Model

| member | source | states |
|---|---|---|
| ArtTypes.MaxAlign | art_insert.c:19-21 | MAXALIGN rounds up to the next multiple of 8: the result is a multiple of 8 in [n, n+8) |
| ArtTypes.NodeAtWellFormed | art.h:113-138 | a node read from a store whose slots are all well formed is well formed |
| ArtKey.CompareKey | art.c:113-116 | the byte difference is negative, zero or positive exactly when a < b, a = b or a > b |
| ArtKey.Reverse | art.c:100-103 | the byte-reversing loop's result: same length, r[i] = s[len−1−i] |
| ArtKey.KeyOf | art.c:84-104 | a variable-length value gives its payload followed by one zero byte (length payload+1); a fixed-width value gives the attlen bytes read at its Datum, reversed |
| ArtKey.FormKey | art.c:71-109 | the attribute loop and the reversing loop compute FormKeySpec: the key of the last non-null attribute (empty when all are null), and the locator only when one is given |
| ArtKey.FixedKeyRoundTrip | art.c:97-104 | reversing a fixed-width key gives back the attlen bytes it was formed from |
| ArtKey.EmptyKeyIffAllNull | art.c:73-106 | the key is empty exactly when every attribute is null, which is the tuple that build and insert skip |
| ArtUtils.AllocNode | art_utils.c:21-45 | a node exists exactly for tags NODE_4..NODE_256; it has that tag, a zeroed header, no children, and is well formed |
| ArtUtils.CopyHeaderAsWritten | art_utils.c:78-84 | as written, dest takes src's count and prefix length, and both headers end up with dest's parent (ItemPointerCopy takes from, to) |
| ArtUtils.CopyHeaderAsWrittenLosesParent | art_utils.c:83 | a src header with parent (1,1) loses that parent in both results |
| ArtUtils.CopyHeader | art_utils.c:78-84 | corrected copy: parent, count and prefix length from src; the first min(8, prefix length) prefix bytes from src, the rest kept from dest |
| ArtUtils.FirstIndex | art_utils.c:104-108 | the index of the first occurrence of k, or the length: every earlier key differs from k |
| ArtUtils.ScanKeys | art_utils.c:104-108 | the Node4/16 loop returns the child at the first matching index among the first num_children keys, and none when there is no match |
| ArtUtils.FindChildEqual | art_utils.c:96-179 | per variant, returns what ChildEqual gives: a match among the occupied Node4/16 keys, Node48's children[keys[k]−1] when keys[k] ≠ 0, Node256's slot when it is valid |
| ArtUtils.PairsOfFirst | art_utils.c:104-108 | a byte is among the pairs of a key/child prefix iff the scan finds it, and then its child is the child at the first occurrence |
| ArtUtils.ChildEqualIsPairs | art_utils.c:96-179 | exact child lookup finds a child iff the node holds the byte, and then returns exactly that byte's child |
| ArtUtils.SlotChildPairs | art_utils.c:324-364 | Node48/256 slot i holds a child iff byte i is among the node's pairs, and it is that byte's child |
| ArtUtils.GreaterScanStopsEarly | art_utils.c:224-239 | as written, a Node4 with keys 97 and 99 searched with `>` 98 enqueues nothing, although the corrected scan enqueues the child of 99 |
| ArtUtils.SortedRangeStep | art_utils.c:194-239 | one step of the Node4/16 range loop: stop, or push this key's item and go on with the rest |
| ArtUtils.ChildStep | art_utils.c:199-239 | the loop body's push and stop decisions for one key, per strategy and compare flag, with the corrected `>`/`>=` test of the range-loop finding (a smaller key is skipped, not a stop) |
| ArtUtils.SortedRangeLoop | art_utils.c:194-240 | the corrected Node4/16 loop over the first num_children keys produces SortedRange |
| ArtUtils.WideRangeLoop | art_utils.c:324-329 | the Node48/256 loop over slots [start, end) produces WideRange |
| ArtUtils.FindChildRange | art_utils.c:183-368 | per variant, enqueues exactly ChildRange (the Node4/16 case through the corrected loop); the slot bounds are [0, key] for `<` and `<=`, and [key, 255] for `>` and `>=` |
| ArtUtils.PushedInRange | art_utils.c:207-239 | in the corrected scan one key is pushed iff it lies in the strategy's range, and it is tagged exact iff it equals the search byte |
| ArtUtils.SortedRangeMembers | art_utils.c:194-240 | over ascending keys, an item is enqueued iff its key lies in range, with exact iff the key equals the search byte (both directions) |
| ArtUtils.SortedPairs | art_utils.c:194-240 | over ascending keys, each key's pair is the child at its own index |
| ArtUtils.WideRangeMembers | art_utils.c:324-364 | over slots [from, to), an item is enqueued iff its byte is among the pairs; exact iff the byte is the search byte (both directions) |
| ArtUtils.ChildRangeMembers | art_utils.c:183-368 | for every variant the enqueued items are exactly the node's children whose byte lies in range; compare false enqueues every child non-exact |
| ArtUtils.UncomparedRangeIgnoresByte | art_utils.c:199-203 | with compare false the enumeration does not depend on the search byte: any two bytes give the same items, exactly each child of the node tagged non-exact |
| ArtUtils.SortedMembers | art_utils.c:191-296 | the Node4/16 case of ChildRangeMembers, stated over the node's pairs |
| ArtUtils.FirstNonZero | art_utils.c:416-417 | the Node48 minimum-leaf scan stops at the first nonzero key-map entry |
| ArtUtils.FirstValid | art_utils.c:426-427 | the Node256 minimum-leaf scan stops at the first valid child slot |
| ArtUtils.MinChildIsLeast | art_utils.c:395-432 | a node with children yields a child, and it is the child of the smallest byte the node holds |
| ArtUtils.SortedMinChild | art_utils.c:402-412 | child 0 of ascending Node4/16 keys belongs to the smallest key |
| ArtUtils.MinChildEmpty | art_utils.c:414-431 | Node48/256 yield a minimum child iff they have a child |
| ArtUtils.MinLeaf | art_utils.c:387-462 | the descent returns a well-formed leaf or nothing; a leaf is its own minimum |
| ArtUtils.FindMinChild | art_utils.c:395-432 | the switch selects MinChild: child 0, the first nonzero map entry's child, or the first valid slot |
| ArtUtils.MinimumLeaf | art_utils.c:387-462 | the recursive method computes MinLeaf through the store |
| ArtUtils.Run | art_utils.c:498-512 | a run of agreeing bytes starting at `from`: it never ends below `from`, and ends at most at `to` |
| ArtUtils.RunAgrees | art_utils.c:498-512 | every byte inside the run agrees, and the byte where it stops short of `to` differs |
| ArtUtils.ScanRun | art_utils.c:498-512 | the comparing loop returns Run |
| ArtUtils.Memcmp | art_utils.c:471 | zero iff the byte strings are equal; otherwise its sign is the sign of the first differing byte |
| ArtUtils.LeafMatches | art_utils.c:466-472 | 0 iff the stored key equals the search key (the same length and the same bytes) |
| ArtUtils.CommonPrefixLen | art_utils.c:475-487 | bytes agree from depth for r positions, within both keys, and differ right after when both keys go on |
| ArtUtils.LongestCommonPrefix | art_utils.c:475-487 | the loop returns CommonPrefixLen |
| ArtUtils.PrefixMatchLen | art_utils.c:519-531 | the matching run of the inline prefix, bounded by min(prefix length, 8, key length − depth); every byte up to it matches, the one at it does not |
| ArtUtils.CheckPrefix | art_utils.c:519-531 | the loop returns PrefixMatchLen |
| ArtUtils.LeafRun | art_utils.c:507-512 | the comparison against the minimum leaf stays within both keys |
| ArtUtils.MismatchAtFacts | art_utils.c:491-515 | with an inline prefix only, the mismatch is the prefix match; otherwise it extends against the minimum leaf, staying inside the key, with every inline byte before it matching |
| ArtUtils.PrefixMismatch | art_utils.c:491-515 | the method computes MismatchAt: None when the minimum leaf cannot be reached, otherwise the mismatch offset |
| BufPage.PageConstants | art_insert.c:19-21 | an empty ART data page has a gap of 8152 bytes, and ART_PAGE_SIZE is 8144 |
| BufPage.UsedBound | art_insert.c:796 | every slot costs at least its 4-byte line pointer |
| BufPage.UsedAppend | art_insert.c:796 | adding a slot adds its line pointer and its aligned tuple size |
| BufPage.UsedUpdate | art_insert.c:821 | rewriting a slot changes the used space by the difference of the two occupants |
| BufPage.SlotBound | art_insert.c:796 | an accounted page has at most 8152/4 slots |
| BufPage.AddItem | art_insert.c:796 | PageAddItem succeeds iff line pointer plus aligned size fit the gap; it appends the node as the next offset and shrinks the gap by exactly that; on failure it returns offset 0 and the page unchanged |
| BufPage.Overwrite | art_insert.c:821 | PageIndexTupleOverwrite applies to an existing item; when the new aligned size fits the old size plus the gap it replaces that slot only and the gap moves by the difference, otherwise the page is unchanged |
| BufPage.DeleteNoCompact | art_insert.c:858 | the deleted offset empties (the trailing slot is dropped), every other slot stays, and the gap regains the tuple plus the line pointer of a dropped trailing slot |
| ArtNodes.ShiftInsert | art_insert.c:321-326 | the memmove shift: the array becomes the prefix, the new value, then the old elements idx..nc, with the rest unchanged |
| ArtNodes.InsertPos | art_insert.c:317-318 | the insertion index: every key before it is smaller and the key at it is larger |
| ArtNodes.SortedInsert | art_insert.c:313-329 | inserting into an occupied prefix keeps it ascending, makes every child valid, adds exactly the new pair, and leaves the slots past it untouched |
| ArtNodes.InsertedPairs | art_insert.c:321-326 | the pairs after the splice are the old pairs plus key → child |
| ArtNodes.InsertedSorted | art_insert.c:317-326 | splicing at the insertion index keeps the keys strictly ascending |
| ArtNodes.AddChild256 | art_insert.c:420-425 | the slot for key takes the child, the uint8 count goes up by one modulo 256, and the pairs gain exactly key → child |
| ArtNodes.FreeSlot48 | art_insert.c:391-394 | below capacity the scan finds an invalid child slot among the 48 |
| ArtNodes.Grow48 | art_insert.c:404-412 | the Node256 built from a full Node48 holds the same pairs and the header of the corrected CopyHeader (the old node's parent, count and prefix) |
| ArtNodes.AddChild48 | art_insert.c:387-417 | below 48 the node gains exactly key → child with the count up by one; when full the old node is untouched and a Node256 with every old pair plus the new one and count 49, headed by the corrected CopyHeader, is returned |
| ArtNodes.Stored48 | art_insert.c:396-398 | setting keys[key] = idx+1 and children[idx] keeps the key map consistent and injective, and adds exactly key → child |
| ArtNodes.Grow16 | art_insert.c:370-379 | the Node48 built from a full Node16 holds the same pairs and the header of the corrected CopyHeader (the old node's parent, count and prefix) |
| ArtNodes.KeyMapStep | art_insert.c:376-377 | one iteration of the key-map loop extends the map to the next key |
| ArtNodes.KeyMap16 | art_insert.c:376-377 | the key map has keys[k_i] = i+1 for the 16 keys and points back to its key everywhere else it is nonzero, with 16 nonzero entries |
| ArtNodes.KeyMapInjective | art_insert.c:376-377 | no two bytes of the built map share a child slot |
| ArtNodes.KeyMapPairs | art_insert.c:373-377 | the built Node48's pairs are the Node16's pairs |
| ArtNodes.AddChild16 | art_insert.c:348-384 | below 16, a sorted insert that gains exactly key → child; when full the old node is untouched and a Node48 with every old pair plus the new one and count 17, headed by the corrected CopyHeader, is returned |
| ArtNodes.Grow4 | art_insert.c:333-340 | the Node16 built from a full Node4 holds the same pairs and count 4, with the header of the corrected CopyHeader |
| ArtNodes.AddChild4 | art_insert.c:311-345 | below 4, a sorted insert that gains exactly key → child; when full the old node is untouched and a Node16 with every old pair plus the new one and count 5, headed by the corrected CopyHeader, is returned |
| ArtNodes.AddChild | art_insert.c:428-447 | a grown node is returned iff the variant is full (never for Node256); the result, or the grown node one tag up, is well formed and holds the old pairs plus key → child; a grown node's header is the corrected CopyHeader's |
| ArtNodes.GrowthSize | art_utils.c:52-74 | each growth step makes the node strictly larger, and MAXALIGN of the size difference equals the difference of the aligned sizes |
| ArtNodes.ReplaceChild | art_insert.c:450-454 | the child slot found for key is redirected to the new locator, keeping variant, header and every other pair; None when there is no such child (where the C code writes through NULL) |
| ArtNodes.Replaced48 | art_insert.c:450-454 | the Node48 case of ReplaceChild keeps the node well formed and redirects exactly key's pair |
| ArtNodes.Replaced256 | art_insert.c:450-454 | the Node256 case of ReplaceChild keeps the node well formed and redirects exactly key's pair |
| ArtPageOps.InitDataPage | art_pageops.c:28-41 | an empty data page with the given flags, zero counters, an invalid right link and the whole gap free |
| ArtPageOps.InitMetadataPage | art_pageops.c:44-55 | the internal tail is block 1, the leaf tail block 2, and all 8 cache slots are zero |
| ArtPageOps.UpdateMetadataPage | art_pageops.c:72-80 | both tails and all 8 cache slots are taken from the given metadata |
| ArtPageOps.UpdateMetadataOverwrites | art_pageops.c:72-80 | a second update overwrites the first completely, and the page then holds exactly the metadata given |
| ArtPageOps.PageEntry.constructor | art.h:141-151 | an entry with the given block, buffer, page, count and flags |
| ArtPageOps.PageList.constructor | art_pageops.c:163 | an empty page list |
| ArtPageOps.Without | art_pageops.c:99 | dlist_delete: the entry is gone, every other entry stays, and nothing is added |
| ArtPageOps.WithoutDistinct | art_pageops.c:99 | unlinking keeps the list free of duplicates |
| ArtPageOps.Release | art_pageops.c:84-106 | no effect for NULL, an invalid buffer or a copy; at count 1 the buffer is marked dirty iff the entry is dirty, unlocked and released, and the entry is unlinked; otherwise only the uint8 count goes down |
| ArtPageOps.NewPage | art_pageops.c:109-124 | a fresh entry that is dirty, unbuffered, count 1 and not a copy, holding an initialised page |
| ArtPageOps.GetBuffer | art_pageops.c:127-153 | extends the relation by one block, pins it, and returns a clean count-1 non-copy entry for that block with an initialised page |
| ArtPageOps.FirstFor | art_pageops.c:163-173 | the list position of the first entry for the block, or the list length when there is none |
| ArtPageOps.LoadPage | art_pageops.c:156-188 | a resident entry for the block gets its uint8 count raised by one, with isNew false; otherwise a fresh count-1 entry reads and pins the block, with isNew true; no other entry changes |
| ArtPageOps.CopyPage | art_pageops.c:191-211 | a fresh private entry holding the block's image, clean, unbuffered, count 1, marked a copy; the pool is unchanged |
| ArtPageOps.Views | art_pageops.c:220-254 | the entries' field values, in list order |
| ArtPageOps.FlushEntry | art_pageops.c:226-253 | one entry is flushed as FlushOne says: buffered ones are marked iff dirty and released, new unbuffered ones are appended, and copies are written back iff dirty |
| ArtPageOps.FlushPages | art_pageops.c:214-255 | the list ends empty and the pool is FlushAll of the entries as they were, in list order |
| ArtPageOps.FlushOneMarked | art_pageops.c:226-250 | after one flush a block is marked dirty iff it was before, or this entry writes it as a dirty buffer or a dirty copy |
| ArtPageOps.FlushMarked | art_pageops.c:220-254 | after the flush a block is marked iff it was before or some entry marks it |
| ArtPageOps.FlushOneImage | art_pageops.c:233-250 | an entry that writes its block leaves its image there; every other block is untouched |
| ArtPageOps.FlushImages | art_pageops.c:220-254 | a block no entry writes keeps its image, and the last entry's write lands |
| ArtPageOps.FlushOnePins | art_pageops.c:226-232 | one flush drops exactly the pin of a buffered entry |
| ArtPageOps.FlushPins | art_pageops.c:220-254 | the flush drops exactly the pins of the buffered entries |
| ArtStore.ItemsPairsUpdate | art_insert.c:821 | rewriting one slot changes a page's pairs by exactly the old and new occupants' pairs |
| ArtStore.StorePairsChange | art_insert.c:821 | changing one block changes the store's pairs by exactly that block's change |
| ArtStore.SlotWriteKeepsLinks | art_insert.c:250-268 | a slot write that keeps a leaf a leaf with its key, and whose own last link leads to a leaf with its key, keeps every last link leading to a leaf with the right key |
| ArtInsert.MaxLeafKeyTight | art_insert.c:286-305 | a one-locator leaf with an 8114-byte key fits an empty page, and one byte more does not |
| ArtInsert.PutPageInv | art_insert.c:821 | a page rewrite that changes one slot to an admissible node keeps the store invariant and changes no other reference |
| ArtInsert.SlotFits | art_insert.c:796 | any stored node fits an empty page |
| ArtInsert.SetTail | art_insert.c:736-745 | the tail of the given kind becomes blk; the other tail and the cache are kept |
| ArtInsert.WithRightLink | art_insert.c:729-730 | only the page's right link changes |
| ArtInsert.Counted | art_insert.c:807 | the n_total bump keeps every slot and the gap |
| ArtInsert.CountedDelete | art_insert.c:863-865 | the n_deleted and deleted_item_size bumps keep every slot and the gap |
| ArtInsert.TailRoom | art_insert.c:686-693 | a tail page that passes the (threshold-scaled) free-space test has room for the item and its line pointer |
| ArtInsert.NewLeaf | art_insert.c:286-293 | the new leaf has the key, the one locator, and no chain links |
| ArtInsert.AppendItem | art_insert.c:211-230 | the rewritten leaf keeps the key and earlier locators, puts the new locator last, and has no links |
| ArtInsert.NewLeafPairs | art_insert.c:286-293 | a new leaf holds exactly the pair (key, tid) |
| ArtInsert.AppendItemSize | art_insert.c:201-203 | the rewritten leaf is one locator larger, and at most 8 bytes larger once aligned |
| ArtInsert.ChainItemsSame | art_insert.c:190-274 | a chain whose leaves keep their locators keeps its locator sequence |
| ArtInsert.ChainTailIsLast | art_insert.c:190-198 | following the head's last link reaches the chain's last leaf |
| ArtInsert.ChainAppend | art_insert.c:190-274 | after `_update_leaf_item` the chain is still a chain (extended by the new leaf when one was chained), and its locators are the old ones followed by the new one |
| ArtInsert.ChainAppendInPlace | art_insert.c:205-241 | the in-place case of ChainAppend |
| ArtInsert.ChainAppendLinked | art_insert.c:243-274 | the chained case of ChainAppend |
| ArtInsert.NewTailEffect | art_insert.c:705-776 | a new tail page keeps the invariant, every node and every pair, and becomes the tail |
| ArtInsert.AddNodeEffect | art_insert.c:780-810 | adding a node keeps the invariant and fills only a formerly empty reference; the store's pairs grow by the node's pairs iff the add succeeded |
| ArtInsert.SameSlots | art_insert.c:729-730 | a trailer-only change keeps the invariant, every node and every pair |
| ArtInsert.UpdateNodeEffect | art_insert.c:813-825 | an admissible overwrite keeps the invariant, changes only that reference, and trades the old occupant's pairs for the new one's |
| ArtInsert.DeleteNodeEffect | art_insert.c:857-865 | deleting an internal node keeps the invariant and every pair, and empties only that reference |
| ArtInsert.DeleteSlot | art_insert.c:857-865 | the delete empties one slot and keeps the page accounted with its pairs |
| ArtInsert.AppendFits | art_insert.c:205-234 | when free space exceeds MAXALIGN(locator), the one-locator-larger leaf is an admissible overwrite |
| ArtInsert.GrownFits | art_insert.c:846-850 | when the exact free space covers MAXALIGN of the growth, the grown node is an admissible overwrite |
| ArtInsert.CleanCopyNotWritten | art_pageops.c:240-253 | a copy not marked dirty is dropped at flush, so the pool is unchanged |
| ArtInsert.DirtyCopyWritten | art_pageops.c:240-250 | a dirty copy's image is written back and its block marked |
| ArtInsert.SplitHeader | art_insert.c:946-949 | the new Node4 header: prefix length as a uint8, the first min(8, length) source bytes, the rest zero |
| ArtInsert.ShiftedHeader | art_insert.c:1032-1039 | inline split: the prefix length drops by mismatch+1 and the bytes after the split move to the front, the rest zeroed |
| ArtInsert.ReloadedHeader | art_insert.c:1043-1061 | long-prefix split: the prefix length drops by mismatch+1 and the inline bytes are reloaded from the minimum leaf |
| ArtInsert.NewHeaderFits | art_insert.c:1065 | a header rewrite of an internal node is an admissible overwrite and keeps its pairs and tag |
| ArtTypes.DataByte | art.h:102-110 | byte i of a leaf's data array: the key byte below the key length, then the six-byte layouts of the locators, and nothing past the end |
| ArtTypes.IptrBytesRoundTrip | art.h:102-110 | a locator with a 32-bit block number reads back unchanged from its six bytes in the data array |
| ArtInsert.SplitBytesInKeys | art_insert.c:945-955 | when both keys go on past the common prefix, the two split bytes are the keys' own bytes there, they differ, and the split is not blocked |
| ArtInsert.ShortKeySplitsOnLocator | art_insert.c:950-954 | a leaf key ending inside the common prefix is split on the first byte of its first locator, which `leaf->data[depth+lcp]` reads |
| ArtInsert.LongPlan | art_insert.c:1043-1061 | the minimum leaf gives the old node's key byte at the mismatch and the next min(8, rest) bytes iff it is long enough |
| ArtInsert.PrefixPlan | art_insert.c:1032-1062 | the old node's new header after a prefix split keeps its parent and count, with the prefix length reduced by mismatch+1 |
| ArtInsert.InlineSplitKeepsPath | art_insert.c:1028-1039 | the new Node4's prefix, the old node's key byte and its shifted prefix together spell the old prefix |
| ArtInsert.PlanPrefixSplit | art_insert.c:1031-1062 | the method computes PrefixPlan |
| ArtInsert.TwoChildNode4 | art_insert.c:946-955 | two add-child calls on a fresh Node4 give a well-formed node holding exactly the two pairs |
| ArtInsert.BlockedAtSplit | art_insert.c:1019-1034 | at a prefix split, the descent is blocked iff PrefixSplitBlocked holds |
| ArtInsert.BlockedPastPrefix | art_insert.c:1019-1023 | past a fully matched prefix, the descent is blocked iff its search part is |
| ArtInsert.BlockedKeyEndsInPrefix | art_insert.c:1019-1023 | a key that ends within a fully matched prefix is blocked: the next key byte would be read past its end |
| ArtInsert.BlockedNoMismatch | art_utils.c:491-515 | a prefix comparison whose minimum leaf cannot be reached blocks the descent |
| ArtInsert.BlockedBelowAtChild | art_insert.c:1106-1113 | where the node has a child for the key byte, the search part is blocked iff the descent from that child one byte deeper is |
| ArtInsert.BlockedBelowNoChild | art_insert.c:1116-1137 | where it has none, it is blocked iff the node is full and has no usable parent to relink |
| ArtInsert.ChildDescent | art_insert.c:1106-1113 | the child the exact lookup finds is the node's pair for the key byte, and the descent below it is well placed |
| ArtInsert.SplitBytesAt | art_insert.c:950-954 | once the common run is known, the split bytes are the data bytes at depth plus the run, and the split is blocked iff one is missing or they are equal |
| ArtInsert.FreeRootByteNotBlocked | art_insert.c:1116-1137 | a key whose first byte has no child under the root Node256 is never blocked: it gets a new leaf |
| ArtInsert.RootLeafNotBlocked | art_insert.c:916-985 | a key whose first byte leads to a leaf is not blocked when it equals that leaf's key and the leaf has no last link, or differs and the split bytes exist and differ |
| ArtInsert.FirstInsertNotBlocked | art_insert.c:1144-1158 | the first insert into the store the build sets up is never blocked, whatever its non-empty key |
| ArtInsert.AcceptsIffFits | art_insert.c:1199-1212 | the corrected test accepts a key iff it is non-empty and its new leaf fits an empty page |
| ArtInsert.AcceptsAsWrittenTooLarge | art_insert.c:1205 | as written, an 8143-byte key is accepted although its leaf with line pointer needs 8180 bytes of an 8152-byte gap |
| ArtInsert.PrefixStepAsWritten | art_insert.c:1000-1023 | as written, the mismatch is stored in a uint8, so the descent compares mismatch mod 256 with the prefix length |
| ArtInsert.PrefixStep | art_insert.c:1019-1023 | corrected: descend iff the mismatch reaches the prefix length, and otherwise split at the mismatch |
| ArtInsert.PrefixStepAgrees | art_insert.c:1000-1023 | the two agree for any mismatch below 256 |
| ArtInsert.PrefixStepTruncates | art_insert.c:1000-1023 | a mismatch at 260 on a 200-byte prefix splits at 4 as written, where the corrected step descends |
| ArtInsert.PrefixStepSplitsAtMismatch | art_insert.c:1019-1034 | the corrected step descends only when the whole inline prefix matched, and splits only where the key's byte differs from the prefix |
| ArtInsert.InitialPages | art_insert.c:1328-1349 | the two pages the build starts from keep the store invariant and hold no pairs: blocks 1 and 2 only, the root at item 1 of block 1 is a fresh Node256, block 2 is an empty leaf page, and both are the tails |
| ArtInsert.InitialNodes | art_insert.c:1328-1349 | the root Node256 is the only node of the initial store |
| ArtInsert.InitialPairs | art_insert.c:1328-1349 | the initial store holds no (key, locator) pair |
| ArtInsert.ArtState.constructor | art_insert.c:1328-1349 | the build setup: the Node256 root is item 1 of block 1, block 2 is an empty leaf page, both are tails and dirty, three blocks are allocated, and the store holds no pairs |
| ArtInsert.ArtState.GetPageWithFreeSpace | art_insert.c:624-777 | the tail is reused iff it passes the free-space test; otherwise block num_allocated becomes the new tail, with the old tail's right link set to it; nodes and pairs are kept, and a fitting item fits the returned page |
| ArtInsert.ArtState.PageAddNode | art_insert.c:780-810 | the node is added with n_total bumped and the page marked dirty; the returned locator is valid iff it fit, and then names the node; the pairs grow by its pairs |
| ArtInsert.ArtState.PageUpdateNode | art_insert.c:813-825 | the slot is overwritten and the page marked dirty; only that reference changes, and the pairs trade old for new |
| ArtInsert.ArtState.AddLeaf | art_insert.c:281-308 | a fresh reference names the new leaf, nothing else changes, and the store gains exactly (key, tid) |
| ArtInsert.ArtState.AppendToLeaf | art_insert.c:201-241 | the tail leaf is rewritten with the locator appended, its page dirty, and the store gains exactly (key, tid) |
| ArtInsert.ArtState.ChainNewLeaf | art_insert.c:243-274 | a new leaf holding tid is linked after the tail and becomes head's last leaf; the store gains exactly (key, tid) |
| ArtInsert.ArtState.UpdateLeafItem | art_insert.c:173-278 | chains in place iff the tail's free space exceeds MAXALIGN(locator), and otherwise chains a new leaf; the store gains exactly (key, tid); Stuck (nothing changed) only where the tail is more than one hop away |
| ArtInsert.ArtState.PageReplaceNode | art_insert.c:828-881 | with enough exact free space the grown node replaces the old one in place, marking the page dirty (the correction of the dirty-page finding); otherwise the old item is deleted, the grown node is added at a free reference, and the parent's child for the key is redirected to it; the pairs are kept |
| ArtInsert.ArtState.DeleteNode | art_insert.c:857-865 | the item is deleted, n_deleted and deleted_item_size are bumped, and the page is dirty; only that reference empties |
| ArtInsert.ArtState.AddRelinked | art_insert.c:867-877 | the node goes to a fresh reference and the parent's child for the key is redirected there |
| ArtInsert.ArtState.ReplaceInPlaceAsWritten | art_insert.c:846-854 | as written, the in-place overwrite does not mark the page dirty |
| ArtInsert.ArtState.HangSplit | art_insert.c:963-982 | a new Node4 over the old node and a new leaf is added and hung from the parent's slot; the store gains exactly the new pair |
| ArtInsert.ArtState.SplitLeaf | art_insert.c:938-984 | a differing key splits the leaf into a Node4 whose two keys are the leaves' data bytes at depth+LCP (a key byte, or a locator byte for a key that ends there) and redirects the parent; Stuck iff SplitBlocked: a byte past a leaf's data, or two equal bytes |
| ArtInsert.ArtState.SplitPrefix | art_insert.c:1025-1098 | a mismatch inside the prefix splits off a Node4 with prefix length equal to the mismatch, keys the old node and the new leaf by their bytes there, and redirects the parent; Stuck iff PrefixSplitBlocked: the parent is the node itself, the key ends at the split, the minimum leaf cannot be reached or is too short, or the split bytes are equal |
| ArtInsert.ArtState.InsertRec | art_insert.c:885-1141 | one level of `_node_insert_recursive`: the store gains exactly the tuple's pair, or nothing changes (Stuck), and Stuck iff Blocked holds of the starting store |
| ArtInsert.ArtState.InsertAtLeaf | art_insert.c:916-985 | at a leaf: an equal key appends to its chain, and a different key splits; the pairs grow by exactly the tuple; Stuck iff Blocked |
| ArtInsert.ArtState.InsertPastPrefix | art_insert.c:987-1099 | at a prefixed node: split at the mismatch, or advance depth by the prefix length and go down (the corrected PrefixStep); Stuck iff PrefixBlocked, the prefix case of Blocked |
| ArtInsert.ArtState.InsertBelow | art_insert.c:1101-1138 | the child for key[depth] is followed at depth+1, or a leaf is added under the node; Stuck iff BlockedBelow |
| ArtInsert.ArtState.AddLeafBelow | art_insert.c:1116-1137 | a leaf is added and hung under the node, moving the grown node when it is full; the store gains exactly the tuple; Stuck (nothing changed) iff the node is full and there is no parent to relink, or the parent is the node itself |
| ArtInsert.ArtState.NodeInsert | art_insert.c:1144-1158 | insertion from the root at depth 0: the tuple's pair is added, or nothing changes, and the latter iff Blocked holds from the root |
| ArtInsert.ArtState.BuildCallback | art_insert.c:1188-1284 | the tuple is accepted iff its key is non-empty and its leaf fits a page (the corrected test of the key-length finding), and otherwise skipped with nothing changed; an accepted insert adds exactly its pair and counts it in n_tuples, and is Stuck iff Blocked holds from the root |
| ArtInsert.ArtState.ArtInsertTuple | art_insert.c:1438-1496 | the same accept rule; an accepted insert adds exactly its pair, and n_tuples is untouched; it is Stuck iff Blocked holds from the root |
| ArtScan.CmpOrder | art_scan.c:50-73 | 0 for equal blocks, 1 when a's block is smaller, −1 when it is larger |
| ArtScan.FirstExists | art_scan.c:339-340 | a non-empty leaf queue has an element that CmpOrder places first |
| ArtScan.LeafAdmits | art_scan.c:105-160 | equality mode admits a leaf iff its key equals the search key; range mode with a non-exact flag admits all; with the exact flag, byte depth−1 of the leaf's data array (its key, then its locators' bytes) is compared with the search key's byte depth−1 under the strategy; None only at depth 0, past the whole data array, or past the search key |
| ArtScan.LocatorByteAdmits | art_scan.c:120 | a `>=` scan for 61 00 00 reaching the leaf of 61 00 at depth 3 compares the leaf's locator byte 00 and admits the leaf |
| ArtScan.ChildItems | art_scan.c:178-191 | in equality mode at most one child, flagged exact, that is the node's child for key[d]; undefined past the key |
| ArtScan.SearchSound | art_scan.c:96-222 | every queued reference of a completed search is a leaf, and in equality mode a leaf with exactly the search key |
| ArtScan.InnerSound | art_scan.c:165-221 | the same soundness from an internal node |
| ArtScan.CollectSound | art_scan.c:198-221 | the same soundness for the results of every queued child |
| ArtScan.CollectStep | art_scan.c:198-221 | one more child adds its subtree's results, and a failure propagates |
| ArtScan.CollectFails | art_scan.c:198-221 | once a child's subtree fails, the whole collection fails |
| ArtScan.ScanState.constructor | art_scan.c:226-247 | a scan starts not fetching, with an empty leaf queue and no current locators |
| ArtScan.ScanState.Search | art_scan.c:96-222 | the recursive search succeeds iff SearchFrom is defined, and then adds exactly its leaves to the queue |
| ArtScan.ScanState.SearchInner | art_scan.c:165-176 | the same, from an internal node through the prefix check |
| ArtScan.ScanState.SearchBelow | art_scan.c:178-221 | the same, from the child step |
| ArtScan.ScanState.QueuedChildren | art_scan.c:178-191 | the children queue is ChildItems: one exact child in equality mode, the range enumeration otherwise |
| ArtScan.ScanState.SearchChildren | art_scan.c:198-221 | the loop over the children queue adds exactly Collect's leaves |
| ArtScan.ScanState.Start | art_scan.c:300-322 | the search from root (1,1), in range mode iff the strategy is not equality, runs only once (guarded by fetching) and adds its leaves |
| ArtScan.ScanState.NextLeaf | art_scan.c:324-379 | an empty queue ends the scan; otherwise a first leaf is popped, its chain successor re-queued, and its locators become current with the first returned |
| ArtScan.ScanState.GetTuple | art_scan.c:290-386 | each call returns the next current locator in stored order, or moves to the next queued leaf, or reports the end when the queue is empty |
| ArtScan.Successor | art_scan.c:366-370 | a leaf's valid next link is queued (non-exact), and nothing otherwise |
| ArtScan.EqualityScanSound | art_scan.c:316-317 | every leaf an equality scan from the root queues holds exactly the search key |

## Left out

- I/O and locking: ReadBuffer, LockBuffer, smgrextend, critical sections and WAL are reduced to a buffer pool value (`ArtPageOps.BufferPool`) of images, marked blocks and pins; `artbuildempty` writes the same initial pages to the init fork and is not modelled.
- The buffered (non-memory-build) insert path: `ArtInsert.ArtState.ArtInsertTuple` applies the same descent to the same page map as the build, without the metadata-page loads and entry release of art_insert.c:652-682 and 902-913.
- The memory flush of `_art_build_callback` (art_insert.c:1220-1279), memory contexts and the HTAB internals: the page hash is the `pages` map.
- `page_leaf_insert_treshold` is a float; it is the rational thrNum/thrDen, with the product truncated.
- `update_parent_iptr` defaults to true (art.c:21, 32); the model covers the setting turned off, so parent back-references are written only where the code writes them unconditionally (the Node4 parent at art_insert.c:1075), and `_update_child_list_parent_iptr` is not modelled. The back-references it would write are never read by the modelled build, search or scan.
- The SSE2 path of `_art_find_child_equal` (art_utils.c:118-136) is modelled by its masked scalar meaning; the non-x86 fallback does not compile as written.
- `_art_node_size` of an unknown tag returns 0; the Node datatype has no unknown tag.
- Pairing-heap order and `_art_find_cmp_distance` (art_scan.c:76-93): both queues are multisets; the leaf queue pops some element `CmpOrder` places first, and children are visited in enumeration order, which does not affect the result multiset.
- Buffer lock modes and the pin hand-over in `_art_search` (art_scan.c:206-214), and detoasting in `_art_form_key` (art.c:86, 93-94).
- `artrescan` and `artendscan` only free memory and copy the scan key; `ArtScan.ScanState.constructor` takes the search key already formed (FormKey of the argument) and the strategy.
- ArtScan.SearchSound: only soundness of the search is proved (every queued reference is a leaf, and in equality mode a leaf holding the search key); completeness (every qualifying leaf is queued) is not stated.
- ArtInsert.ArtState.UpdateLeafItem: a chain whose head's last link leads to a leaf that itself has a last link (a second hop, which the source's loop would follow) yields Stuck, since the build never creates one.
- ArtInsert.ArtState.AddLeaf: its requires bounds the key by MAX_LEAF_KEY_LEN (8114), which excludes the 8115–8143-byte keys that the as-written accept test of art_insert.c:1205 and 1476 lets through (AcceptsAsWrittenTooLarge); the model reaches this member only through the corrected accept test, so those keys, whose new leaf does not fit an empty page and whose PageAddItem offset 0 goes unchecked at art_insert.c:796-803, are not modelled here.
- ArtInsert.ArtState.ChainNewLeaf: its requires bounds the head's key by MAX_LEAF_KEY_LEN (8114), which excludes the 8115–8143-byte keys that the as-written accept test of art_insert.c:1205 and 1476 lets through (AcceptsAsWrittenTooLarge); the model reaches this member only through the corrected accept test, so those keys, whose new leaf does not fit an empty page and whose PageAddItem offset 0 goes unchecked at art_insert.c:796-803, are not modelled here.
- ArtInsert.ArtState.UpdateLeafItem: its requires bounds the head's key by MAX_LEAF_KEY_LEN (8114), which excludes the 8115–8143-byte keys that the as-written accept test of art_insert.c:1205 and 1476 lets through (AcceptsAsWrittenTooLarge); the model reaches this member only through the corrected accept test, so those keys, whose new leaf does not fit an empty page and whose PageAddItem offset 0 goes unchecked at art_insert.c:796-803, are not modelled here.
- ArtInsert.ArtState.HangSplit: its requires bounds the key by MAX_LEAF_KEY_LEN (8114), which excludes the 8115–8143-byte keys that the as-written accept test of art_insert.c:1205 and 1476 lets through (AcceptsAsWrittenTooLarge); the model reaches this member only through the corrected accept test, so those keys, whose new leaf does not fit an empty page and whose PageAddItem offset 0 goes unchecked at art_insert.c:796-803, are not modelled here.
- ArtInsert.ArtState.SplitLeaf: its requires bounds the key by MAX_LEAF_KEY_LEN (8114), which excludes the 8115–8143-byte keys that the as-written accept test of art_insert.c:1205 and 1476 lets through (AcceptsAsWrittenTooLarge); the model reaches this member only through the corrected accept test, so those keys, whose new leaf does not fit an empty page and whose PageAddItem offset 0 goes unchecked at art_insert.c:796-803, are not modelled here.
- ArtInsert.ArtState.SplitPrefix: its requires bounds the key by MAX_LEAF_KEY_LEN (8114), which excludes the 8115–8143-byte keys that the as-written accept test of art_insert.c:1205 and 1476 lets through (AcceptsAsWrittenTooLarge); the model reaches this member only through the corrected accept test, so those keys, whose new leaf does not fit an empty page and whose PageAddItem offset 0 goes unchecked at art_insert.c:796-803, are not modelled here.
- ArtInsert.ArtState.InsertRec: its requires bounds the key by MAX_LEAF_KEY_LEN (8114), which excludes the 8115–8143-byte keys that the as-written accept test of art_insert.c:1205 and 1476 lets through (AcceptsAsWrittenTooLarge); the model reaches this member only through the corrected accept test, so those keys, whose new leaf does not fit an empty page and whose PageAddItem offset 0 goes unchecked at art_insert.c:796-803, are not modelled here.
- ArtInsert.ArtState.InsertAtLeaf: its requires bounds the key by MAX_LEAF_KEY_LEN (8114), which excludes the 8115–8143-byte keys that the as-written accept test of art_insert.c:1205 and 1476 lets through (AcceptsAsWrittenTooLarge); the model reaches this member only through the corrected accept test, so those keys, whose new leaf does not fit an empty page and whose PageAddItem offset 0 goes unchecked at art_insert.c:796-803, are not modelled here.
- ArtInsert.ArtState.InsertPastPrefix: its requires bounds the key by MAX_LEAF_KEY_LEN (8114), which excludes the 8115–8143-byte keys that the as-written accept test of art_insert.c:1205 and 1476 lets through (AcceptsAsWrittenTooLarge); the model reaches this member only through the corrected accept test, so those keys, whose new leaf does not fit an empty page and whose PageAddItem offset 0 goes unchecked at art_insert.c:796-803, are not modelled here.
- ArtInsert.ArtState.InsertBelow: its requires bounds the key by MAX_LEAF_KEY_LEN (8114), which excludes the 8115–8143-byte keys that the as-written accept test of art_insert.c:1205 and 1476 lets through (AcceptsAsWrittenTooLarge); the model reaches this member only through the corrected accept test, so those keys, whose new leaf does not fit an empty page and whose PageAddItem offset 0 goes unchecked at art_insert.c:796-803, are not modelled here.
- ArtInsert.ArtState.AddLeafBelow: its requires bounds the key by MAX_LEAF_KEY_LEN (8114), which excludes the 8115–8143-byte keys that the as-written accept test of art_insert.c:1205 and 1476 lets through (AcceptsAsWrittenTooLarge); the model reaches this member only through the corrected accept test, so those keys, whose new leaf does not fit an empty page and whose PageAddItem offset 0 goes unchecked at art_insert.c:796-803, are not modelled here.
- ArtInsert.ArtState.NodeInsert: its requires bounds the key by MAX_LEAF_KEY_LEN (8114), which excludes the 8115–8143-byte keys that the as-written accept test of art_insert.c:1205 and 1476 lets through (AcceptsAsWrittenTooLarge); the model reaches this member only through the corrected accept test, so those keys, whose new leaf does not fit an empty page and whose PageAddItem offset 0 goes unchecked at art_insert.c:796-803, are not modelled here.
- ArtInsert.ArtState.BuildCallback: accepts a tuple by the corrected test (a non-empty key of at most 8114 bytes, AcceptsIffFits); as written (art_insert.c:1199-1212) it skips only an empty key or one of 8144 bytes or more, so a key of 8115–8143 bytes is passed to `_node_insert`, its leaf needs more than a page holds (8180 bytes for 8143, AcceptsAsWrittenTooLarge), and `_page_add_node` stores the offset 0 PageAddItem returns (art_insert.c:796-803) as the new leaf's locator. The model skips such a key with nothing changed.
- ArtInsert.ArtState.ArtInsertTuple: accepts a tuple by the same corrected test; as written (art_insert.c:1476-1483) it rejects only an empty key (art_insert.c:1471-1474) and a key of 8144 bytes or more, so a key of 8115–8143 bytes reaches `_node_insert` and ends with the unchecked offset 0 of art_insert.c:796-803, as for BuildCallback. The model skips such a key with nothing changed.
- ArtKey.KeyOf: a fixed-width value is the attlen bytes the code reads at `(uint8_t *) values + i` (art.c:97-103), taken as given in `FixedWidth`. Those are the bytes of the Datum array at byte offset i (the cast binds before the addition): for the first attribute of a by-value type they are the value's own bytes, but for a fixed-width by-reference type (uuid, name, macaddr) they are the pointer's bytes and whatever follows it, and for a later attribute they start inside the first Datum. The model does not compute where those bytes come from.
- ArtInsert.ArtState.InsertRec: the descents Blocked lists are Stuck rather than undefined reads or writes: a dangling reference, a key byte read past the key's end, a second last-link hop, split bytes past a leaf's data or equal to each other, a minimum leaf that cannot be reached or is too short, and a parent equal to the node where the node would be replaced. FreeRootByteNotBlocked, RootLeafNotBlocked and FirstInsertNotBlocked show cases that are never blocked; that no store the build produces is ever blocked is not proved.
- ArtInsert.ArtState.NodeInsert: the pairs the store gains are proved, but not that the equality search then finds the new locator.
- ArtInsert.LongPlan: takes the reloaded split byte and prefix bytes from the minimum leaf's key only, and is None (Stuck) when that key is too short; the C reads `minimum_leaf->data[...]` (art_insert.c:1058-1061), which runs on into the leaf's locator bytes, so a minimum leaf whose key ends inside the reloaded range is not modelled.
- ArtInsert.ArtState.SplitPrefix: when the minimum leaf's byte at the mismatch equals the key's byte (which the code would file as a duplicate child in the new Node4), or the minimum leaf is too short for the bytes the split reloads from it, the model is Stuck.
- ArtInsert.ArtState.SplitLeaf: the source computes the common prefix after adding the new leaf; the model computes it first, which gives the same value since the leaf bytes are those of the key. Split bytes past a key's end are read from the locators as the data array holds them, taking ItemPointerData's three 16-bit fields to be little-endian; a split byte past the leaf's whole data array, or two equal split bytes (a duplicate child the C would add), are Stuck.
- ArtInsert.SplitHeader: the Node4 prefix length is the LCP modulo 256, the uint8 truncation as written at art_insert.c:947; it is kept, not corrected.
- ArtNodes.Grow4: builds the grown node's header with the corrected CopyHeader, so the grown node takes the old node's parent; as written (art_utils.c:83, called at art_insert.c:340) the grown node keeps its zeroed parent (0,0) and writes it into the old header too, as CopyHeaderAsWritten states. The parent field is carried but never read by the modelled build, search or scan, so pairs, contents and search results are the same either way.
- ArtNodes.Grow16: builds the grown node's header with the corrected CopyHeader, so the grown node takes the old node's parent; as written (art_utils.c:83, called at art_insert.c:379) the grown node keeps its zeroed parent (0,0) and writes it into the old header too, as CopyHeaderAsWritten states. The parent field is carried but never read by the modelled build, search or scan, so pairs, contents and search results are the same either way.
- ArtNodes.Grow48: builds the grown node's header with the corrected CopyHeader, so the grown node takes the old node's parent; as written (art_utils.c:83, called at art_insert.c:412) the grown node keeps its zeroed parent (0,0) and writes it into the old header too, as CopyHeaderAsWritten states. The parent field is carried but never read by the modelled build, search or scan, so pairs, contents and search results are the same either way.
- ArtNodes.AddChild4: returns Grow4's node when full, so it inherits Grow4's corrected header copy (art_insert.c:340).
- ArtNodes.AddChild16: returns Grow16's node when full, so it inherits Grow16's corrected header copy (art_insert.c:379).
- ArtNodes.AddChild48: returns Grow48's node when full, so it inherits Grow48's corrected header copy (art_insert.c:412).
- ArtNodes.AddChild: a grown node's header is the corrected CopyHeader's, not the as-written copy that leaves it parent (0,0).
- ArtInsert.ArtState.PageReplaceNode: the in-place branch marks the page dirty, the correction of the dirty-page finding; as written (art_insert.c:846-852) it does not, which ReplaceInPlaceAsWritten states and CleanCopyNotWritten shows is lost at flush. The descent calls the corrected branch only.
- ArtInsert.ArtState.InsertPastPrefix: compares the mismatch through the corrected PrefixStep; as written `prefix_diff` is a uint8 (art_insert.c:1000-1023), which PrefixStepAsWritten states and PrefixStepTruncates shows splitting a matching prefix. The two agree below 256 (PrefixStepAgrees), and the descent (InsertRec, NodeInsert and its callers) uses the corrected one only.
- ArtUtils.ChildStep: runs the corrected Node4/16 range loop; as written, for `>` and `>=` the loop breaks at the first key below the search byte (art_utils.c:234-237 for Node4, 283-286 for Node16), so over ascending keys it enqueues no child at all once the smallest key is below the byte, as GreaterScanStopsEarly shows.
- ArtUtils.SortedRangeLoop: runs the corrected Node4/16 range loop; as written, for `>` and `>=` the loop breaks at the first key below the search byte (art_utils.c:234-237 for Node4, 283-286 for Node16), so over ascending keys it enqueues no child at all once the smallest key is below the byte, as GreaterScanStopsEarly shows.
- ArtUtils.FindChildRange: runs the corrected Node4/16 range loop; as written, for `>` and `>=` the loop breaks at the first key below the search byte (art_utils.c:234-237 for Node4, 283-286 for Node16), so over ascending keys it enqueues no child at all once the smallest key is below the byte, as GreaterScanStopsEarly shows.
- ArtScan.ChildItems: runs the corrected Node4/16 range loop; as written, for `>` and `>=` the loop breaks at the first key below the search byte (art_utils.c:234-237 for Node4, 283-286 for Node16), so over ascending keys it enqueues no child at all once the smallest key is below the byte, as GreaterScanStopsEarly shows. Range-mode child sets are therefore the corrected ones.
- ArtScan.ChildItems: in a range step with compare false, the C reads `key[depth]` (art_scan.c:186-189) even when depth is past the search key, whose buffer holds exactly key_len bytes (art.c:89, 99); the byte is never used when compare is false, so the model passes 0 instead of Stuck, and the enumeration is the same for every byte (UncomparedRangeIgnoresByte).
- ArtScan.ScanState.SearchChildren: runs the corrected Node4/16 range loop; as written, for `>` and `>=` the loop breaks at the first key below the search byte (art_utils.c:234-237 for Node4, 283-286 for Node16), so over ascending keys it enqueues no child at all once the smallest key is below the byte, as GreaterScanStopsEarly shows. Collect reaches the corrected ChildItems one level down, so the leaves it adds are those of the corrected search.
- ArtScan.ScanState.QueuedChildren: runs the corrected Node4/16 range loop; as written, for `>` and `>=` the loop breaks at the first key below the search byte (art_utils.c:234-237 for Node4, 283-286 for Node16), so over ascending keys it enqueues no child at all once the smallest key is below the byte, as GreaterScanStopsEarly shows. It queues ChildItems, the corrected set.
- ArtScan.ScanState.Search: runs the corrected Node4/16 range loop; as written, for `>` and `>=` the loop breaks at the first key below the search byte (art_utils.c:234-237 for Node4, 283-286 for Node16), so over ascending keys it enqueues no child at all once the smallest key is below the byte, as GreaterScanStopsEarly shows. A range search as written can queue fewer leaves than the model's.
- ArtScan.ScanState.SearchInner: runs the corrected Node4/16 range loop; as written, for `>` and `>=` the loop breaks at the first key below the search byte (art_utils.c:234-237 for Node4, 283-286 for Node16), so over ascending keys it enqueues no child at all once the smallest key is below the byte, as GreaterScanStopsEarly shows. It goes through QueuedChildren.
- ArtScan.ScanState.SearchBelow: runs the corrected Node4/16 range loop; as written, for `>` and `>=` the loop breaks at the first key below the search byte (art_utils.c:234-237 for Node4, 283-286 for Node16), so over ascending keys it enqueues no child at all once the smallest key is below the byte, as GreaterScanStopsEarly shows. It goes through QueuedChildren.
- ArtScan.ScanState.Start: runs the corrected Node4/16 range loop; as written, for `>` and `>=` the loop breaks at the first key below the search byte (art_utils.c:234-237 for Node4, 283-286 for Node16), so over ascending keys it enqueues no child at all once the smallest key is below the byte, as GreaterScanStopsEarly shows. A `>` or `>=` scan starts from the corrected search.
- ArtScan.ScanState.GetTuple: runs the corrected Node4/16 range loop; as written, for `>` and `>=` the loop breaks at the first key below the search byte (art_utils.c:234-237 for Node4, 283-286 for Node16), so over ascending keys it enqueues no child at all once the smallest key is below the byte, as GreaterScanStopsEarly shows. The tuples a `>` or `>=` scan returns are those of the corrected search.
- Multi-column keys: the attribute loop of `_art_form_key` is modelled, but the index is defined on one column, so only the last non-null attribute's key matters.

## Findings

| source | as written | input that shows it | evidently intended | confidence | as-written member | corrected member |
|---|---|---|---|---|---|---|
| art_utils.c:83 | `ItemPointerCopy(&dest->parent_iptr, &src->parent_iptr)` copies dest's parent into src | src parent (1,1), dest parent (0,0): after the copy neither header has (1,1) | dest takes src's parent | not executed | ArtUtils.CopyHeaderAsWrittenLosesParent | ArtUtils.CopyHeader |
| art_insert.c:846-854 | the in-place branch of `_page_replace_node` overwrites the node but never sets the page entry dirty | a grown node rewritten in place on a page loaded as a clean copy after a memory flush: the copy is dropped at flush | mark the page dirty as the other branch does | not executed | ArtInsert.CleanCopyNotWritten | ArtInsert.DirtyCopyWritten |
| art_insert.c:1205 | keys shorter than ART_PAGE_SIZE (8144) are accepted | an 8143-byte key: its one-locator leaf and line pointer need 4 + MAXALIGN(24 + 8143 + 6) = 8180 bytes of an 8152-byte page | accept only keys whose leaf fits an empty page (at most 8114 bytes) | not executed | ArtInsert.AcceptsAsWrittenTooLarge | ArtInsert.AcceptsIffFits |
| art_utils.c:224-239 | for `>` and `>=` the Node4/16 loop breaks at the first key below the byte, and keys ascend | Node4 keys 97, 99 searched with `> 98`: nothing is enqueued | skip smaller keys and enqueue the larger ones | not executed | ArtUtils.GreaterScanStopsEarly | ArtUtils.ChildRangeMembers |
| art_insert.c:1000-1023 | `prefix_diff` is a `uint8_t`, so a mismatch offset of 256 or more is truncated | a key that matches a 200-byte prefix to offset 260: the split lands at offset 4 of a matching prefix | keep the mismatch as an int | not executed | ArtInsert.PrefixStepTruncates | ArtInsert.PrefixStepSplitsAtMismatch |
