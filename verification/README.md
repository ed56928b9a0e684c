# Verified models of the utility library's containers

This project models the index structures and protocols of the library in Dafny and
proves what they promise:

- **Red-black tree** (`RbNodes`, `RbQueries`, `RbWalk`): nodes with parent links and one
  shared sentinel, rotations, bottom-up rebalancing, removal that relinks the successor
  into the removed node's place, queries and the parent-link walker. The abstraction is
  the ghost sequence `inOrder`; each node carries ghost bounds of its slice of it and its
  black height.
- **Radix tree** (`RdxBits`, `RdxTable`, `RdxOrder`, `RdxSearch`, `RdxNext`, `RdxWalk`,
  `RdxPower`, `RdxShape`, `RdxMemory`, `RdxVersions`, `RdxRuns`, `RdxAgain`, `RdxPromise`): the
  path-compressed prefix tree over byte
  addresses. The abstraction is the ghost map `entries` from bit strings to entries; each
  node carries the ghost bit string `pfx` that everything below it starts with. Longest
  match follows section 5.1 of RFC 4632.
- **Change list** (`Llist`, `Changes`, `Radical`): the doubly linked list between two sentinels, and
  the list of versioned changes on it in which walkers leave markers. A ghost place `at`
  orders the nodes; each marker carries the ghost set `given` of versions that its walker
  is done with. `Changes` says what the list is for without links and places: a `View` of the
  changes and the accounts, which deeds are `Right` for an act, and what they do to the view
  (`After`). There is only one way for acts to go on (`Changes.OneWayAll`), and the list goes
  this way.
- **Event key tree** (`EventTree`), **thread pool** (`ThreadPool`) and **TLV items**
  (`Tlv`: writing and reading; `TlvSearch`: searching, in one list and along a path).
- `Options`, `Orders`, `Sets` and `Walks` hold what several modules share: optional values,
  the comparison function, sizes of sets, the walk directions and the visit limit.

## How to read it

Objects that the C code updates in place are classes with the same fields; ghost fields
hold the abstraction. `Valid()` (or the predicates it is made of) is the representation
invariant: every method that changes something requires and restores it, so it holds in
every state that any run reaches. Invariants are stated node by node with named
predicates (`LeftOk`, `UpOk`, `Accounted`, ...) that the proofs instantiate by hand.

Inputs of the environment are parameters: the answers of memory allocations (`mem1`,
`mem2`, `grants`, `room`, `fits`), what callbacks do and answer at their i-th call (`stop`
and `reply`: functions, of the node as well where the callback acts on it, so there is no
bound on the calls), the outcome of a send
(`sends`), the next thread to move (`Step`). The debug flag of the radix
table is a field, because the code checks key lengths (and, in places, null addresses)
only when it is set; the preconditions say `debug || ...` accordingly.

## Where the code departs from its documentation

- `std_radix_getnext` does not always return the next entry. It fails for exactly two
  kinds of keys, `Stranded` and `Detoured` (`RdxNext.GetNext`): a key that would continue
  a stored key on a side where nothing is stored while the other side is populated, and a
  key below which two entries part at a bit where the address carries a 1 beyond the key.
  Stored keys are never affected, and keys whose address has zeros beyond the key are
  never detoured. `RdxNext.StrandedExample` and `RdxNext.DetouredExample` are runs that go
  wrong in these two ways.
- `std_rbtree_walk` does not begin at the node with the given key (or the next greater one)
  but behind it, and with a key that is greater than all it begins at the first node; when
  it is stopped, its result is the node of the last callback, not the next one
  (`RbWalk.WalkFrom`). With a key it begins as documented in an empty tree only
  (`RbWalk.PromisedBegin`, `RbWalk.WalkFromExample`). In pre-order its result is the
  documented one if the node of the last callback has a left child
  (`RbWalk.PromisedResult`); but a walk resumed from there passes over this child and its
  left subtree (`RbWalk.Resumed`, `RbWalk.LossExample`).
- `std_radix_walk` and `std_radix_versionwalk`, when stopped, return the entry, possibly
  none, of the node they have already moved on to. That is the next entry exactly if the
  left child of the last entry's node holds one (`RdxPromise.StopsAsPromised`,
  `RdxPromise.StopExample`). A walk that is started at an entry visits neither that entry
  nor what continues its key with a 0; it visits all later entries exactly if there is
  nothing of that kind (`RdxPromise.StartsAsPromised`, `RdxPromise.StartExample`).
- `std_radix_insert` says nothing about a structure that is in the table already. The table
  stays intact exactly if debug mode is off and the key is stored or the first allocation
  fails; otherwise two nodes hold the structure, or it has lost its node
  (`RdxAgain.InsertStored`).
- `std_radical_walkchangelist` counts `cnt` down without ever looking at it, so it has no
  parameter in the model; and it delivers versions up to and including `max_ver`.
- Changes that callbacks append during `std_radical_walkchangelist` do not prolong the walk
  if `max_ver` is at most the table's version when it starts. Otherwise they do: a callback
  that appends a change anew each time is called until the versions have passed `max_ver`
  (`Radical.ChangeList.Prolong`).
- A negative answer of a change-list callback that has appended the refused node anew moves
  the marker over everything that was ahead of it; these changes are not delivered
  (`Radical.ChangeList.Lose`, and `LossExample` for a run of this kind). Nothing else is
  ever lost (`Radical.ChangeList.Run`).
- The TLV functions add the header's 16 bytes to a length field modulo 2^64. A field of
  exactly 2^64 - 16 makes `std_tlv_find_next` stay where it is forever
  (`TlvSearch.StallExample`; it ends on exactly the other inputs, `TlvSearch.Termination`).
  With a larger one an item is taken for valid although its value leaves the buffer
  (`TlvSearch.OverflowExample`; what is found is complete in exactly the other cases,
  `TlvSearch.CompleteIff` and `TlvSearch.NestedIff`). And with 1 to 15 bytes left over, the
  search reads a header that is not all there (`TlvSearch.InsideIff`,
  `TlvSearch.OutsideExample`).
- A client registered for the empty key receives nothing.

## Model

| member | source | states |
|---|---|---|
| RbNodes.Table.constructor | src/std_rbtree.c:923-973 | a valid empty table: no nodes, a black sentinel as the root, counters at 0 |
| RbNodes.Table.RotateLeft | src/std_rbtree.c:90-115 | a left rotation keeps links, parent links and the in-order sequence |
| RbNodes.Table.RotateRight | src/std_rbtree.c:118-143 | a right rotation keeps links, parent links and the in-order sequence |
| RbNodes.Table.Recolor | src/std_rbtree.c:156-163 | a red uncle: the violation moves to the grandparent, heights are kept |
| RbNodes.Table.InnerLeft | src/std_rbtree.c:167-172 | an inner red child becomes an outer one, heights are kept |
| RbNodes.Table.OuterRight | src/std_rbtree.c:174-177 | an outer red child: one rotation ends the violation |
| RbNodes.Table.BalanceOnInsert | src/std_rbtree.c:146-209 | from one new red leaf, rebalancing terminates in a tree with a black root, no red-red edge and equal black heights |
| RbNodes.Table.FindPlace | src/std_rbtree.c:423-433 | the descent ends at the free link after every element that is not greater |
| RbNodes.Table.Insert | src/std_rbtree.c:415-450 | the tree stays valid; the sequence is the old one with the new node right after every element not greater than it; counters move by one |
| RbNodes.Table.SiblingExists | src/std_rbtree.c:230-231 | the sibling of a short subtree is never the sentinel, so the break of the loop is unreachable |
| RbNodes.Table.RedSiblingLeft | src/std_rbtree.c:222-228 | a red sibling: after the rotation the sibling is black and the paths through x still lack one black node |
| RbNodes.Table.ShortUp | src/std_rbtree.c:233-237 | a black sibling with black children: the missing black node moves up |
| RbNodes.Table.NearLeft | src/std_rbtree.c:240-246 | a red near nephew becomes a red far nephew |
| RbNodes.Table.FarLeft | src/std_rbtree.c:248-252 | a red far nephew: one rotation restores all black heights |
| RbNodes.Table.BalanceOnRemove | src/std_rbtree.c:212-293 | from one missing black node on the paths through x (which may be the sentinel), rebalancing terminates in a balanced tree |
| RbNodes.Table.GetNext | src/std_rbtree.c:478-508 | the node at the next place of the sequence, or none at its end |
| RbNodes.Table.Splice | src/std_rbtree.c:552-573 | the spliced node's child takes its place, and the tree is balanced again |
| RbNodes.Table.Substitute | src/std_rbtree.c:575-598 | the successor is relinked into the removed node's place with its colour, links and slice |
| RbNodes.Table.Remove | src/std_rbtree.c:533-604 | the tree stays valid; the sequence is the old one minus exactly the removed node, whose links are cleared |
| RbQueries.GetFirst | src/std_rbtree.c:331-349 | the first element of the sequence |
| RbQueries.GetExact | src/std_rbtree.c:369-395 | an equal element, and none only if there is none; after at most 2*log2(n+1) comparisons |
| RbQueries.GetExactOrNext | src/std_rbtree.c:787-834 | an equal element, else the least one that is greater, else none; after at most 2*log2(n+1) comparisons |
| RbQueries.GetExactOrPrev | src/std_rbtree.c:852-896 | an equal element, else the greatest one that is less, else none; after at most 2*log2(n+1) comparisons |
| RbQueries.WidthBound | src/std_rbtree.c:146-293 | a node of black height h has at least 2^h - 1 nodes in its subtree |
| RbQueries.DepthBound | src/std_rbtree.c:382-391 | no node is further than 2*log2(n+1) levels down |
| RbWalk.InorderStart | src/std_rbtree.c:672-757 | what a walk in order has ahead is the sequence from right behind its start |
| RbWalk.SameNodes | src/std_rbtree.c:672-757 | in pre-order, a subtree has the same nodes as in order, each once |
| RbWalk.InOnePiece | src/std_rbtree.c:699-706 | in pre-order, the subtree of every node stands in one piece |
| RbWalk.RecursiveWalk | src/std_rbtree.c:296-309 | the recursive walk visits the node's slice of the sequence |
| RbWalk.Walk | src/std_rbtree.c:672-757 | the walk by parent links, in order or in pre-order, visits from the first on what its start has ahead, and stops exactly when the callback or the count says so; what is then still ahead, and the node returned |
| RbWalk.WalkKeepsCount | src/std_rbtree.c:616-688 | what the count means: with a positive one at most as many visits, with 0 at most 2^32 - 1, and fewer than are ahead only if the callback stops the walk or the count is full |
| Walks.CountIsKept | src/std_radix.c:1312-1315 | the same for walks of both trees; a negative count is one of 2^64 and less |
| RbWalk.Resumed | src/std_rbtree.c:684-706 | what a walk loses that is resumed from the returned node: nothing in order; in pre-order the left child of the last node and the left subtree of that child |
| RbWalk.WalkInSlices | src/std_rbtree.c:672-757 | walks with any counts and any callbacks, a new one for each, each resumed from the last result: each stops when its count and its callback say so; what they visit and what is lost between them is the whole sequence; in order they concatenate to it, in pre-order exactly if they stop only at nodes without a left child |
| RbWalk.WalkFrom | src/std_rbtree.c:760-785 | the walk from a key on: it begins behind the element that the search for the key finds, or at the first one if it finds none |
| RbWalk.PromisedBegin | inc/opx/std_rbtree.h:354-382 | a walk with a key begins where the documentation says only in an empty tree |
| RbWalk.PromisedResult | inc/opx/std_rbtree.h:354-382 | it returns what is documented exactly if it is not stopped or stops, in pre-order, at a node with a left child |
| RbWalk.WalkFromExample | src/std_rbtree.c:760-785 | in a tree of one node, a walk from its key visits nothing |
| RbWalk.LossExample | src/std_rbtree.c:672-757 | in any tree of three nodes or more, a pre-order walk that stops after one node and is resumed never visits the root's left child, but all that comes behind it |
| RdxBits.CompareCorrect | src/std_radix.c:154-166 | the comparison is zero exactly when the addresses share their first n bits |
| RdxBits.FirstBitSetCorrect | src/std_radix.c:945-951 | the table entry for an exclusive or is the first bit on which two bytes differ |
| RdxBits.FirstDifference | src/std_radix.c:945-951 | the first bit on which two addresses differ, or some position from n on if they share n bits |
| RdxOrder.AddressOrder | src/std_radix.c:945-951 | the order of the bits of whole addresses is that of their bytes |
| RdxTable.Table.constructor | src/std_radix.c:1587-1632 | an empty table |
| RdxTable.Table.PrefixIsAbove | src/std_radix.c:923-937 | a node whose bits are a prefix of another's is above it |
| RdxTable.Table.ChildTowards | src/std_radix.c:923-937 | whatever continues a node's bits hangs below the child on that side |
| RdxTable.Table.FindEntry | src/std_radix.c:923-937 | the descent ends at a node with an entry, after following the address at every node |
| RdxTable.Table.Locate | src/std_radix.c:943-965 | the node and level at which a key parts from the tree |
| RdxTable.Table.KeyIsNew | src/std_radix.c:973-996 | unless the located node ends exactly at the key, no node carries the key's bits |
| RdxTable.Table.WhereItParts | src/std_radix.c:991-1049 | which of the cases a key is in: a node is there, or it leaves the tree between a node and its parent, or neither |
| RdxTable.Table.AttachEntry | src/std_radix.c:991-995 | an entry on an existing branching point |
| RdxTable.Table.AddLeaf | src/std_radix.c:1015-1027 | an entry as a leaf on a free side |
| RdxTable.Table.AddAbove | src/std_radix.c:1036-1042 | an entry between a node and its parent |
| RdxTable.Table.AddSplit | src/std_radix.c:1043-1078 | an entry beside a node, below a new branching point |
| RdxTable.Table.GiveBack | src/std_radix.c:1044-1049 | a failed second allocation leaves the tree and the balance of allocations as they were; one node has been freed |
| RdxMemory.RoomIsEnough | src/std_radix.c:991-1049 | the allocations told by the stored keys: none where two of them part, else a node, and another one if the new key parts from them where no others do |
| RdxTable.Table.Insert | src/std_radix.c:803-1083 | the trie invariant and the counters are kept; a known key gives its entry back; the map gains a new one exactly if the allocations that it takes are granted, else nothing changes; version bounds survive |
| RdxTable.Table.UnhookLeaf | src/std_radix.c:1128-1171 | a leaf goes, and with it a parent that would be left with one child and no entry |
| RdxTable.Table.Collapse | src/std_radix.c:1186-1214 | a node with one child is replaced by that child |
| RdxTable.Table.RemoveNode | src/std_radix.c:1085-1240 | the trie invariant and the counters are kept; the map loses exactly the node's key; what remains are nodes from before |
| RdxTable.Table.Remove | src/std_radix.c:1243-1270 | the map loses exactly the entry's key, and the entry is nowhere any more; what remains are nodes from before |
| RdxOrder.LessTotal | inc/opx/std_radix.h:393-396 | prefix-first lexicographic order: exactly one of before, equal, after |
| RdxOrder.LessTransitive | inc/opx/std_radix.h:393-396 | the order is transitive |
| RdxSearch.Descend | src/std_radix.c:263-276 | every node on the address's way within the key is the one reached or above it |
| RdxSearch.Backtrack | src/std_radix.c:282-291 | the first match on the way up; no match lies between |
| RdxSearch.GetBest | src/std_radix.c:228-298 | the entry with the longest key that is a prefix of the address's first bitlen bits, or none if there is none |
| RdxSearch.GetBestAndPrev | src/std_radix.c:300-404 | the longest match and the longest one shorter than it; the second result is untouched when no search takes place |
| RdxSearch.GetNextBest | src/std_radix.c:406-495 | the longest match that is shorter than the longest |
| RdxSearch.GetLessSpecific | src/std_radix.c:1710-1733 | the longest stored proper prefix of a stored key |
| RdxSearch.GetExact | src/std_radix.c:565-636 | the entry of exactly this key, or none |
| RdxNext.BeforeChild | src/std_radix.c:778-798 | what comes before a child in the order of keys: what comes before its parent, the parent, and for a right child the left subtree |
| RdxNext.NextUp | src/std_radix.c:789-796 | climbing until a right turn is left leads to the node right after a subtree |
| RdxNext.FirstEntry | src/std_radix.c:778-798 | the first entry of a subtree |
| RdxNext.Fork | src/std_radix.c:1043-1061 | two nodes that part have a branching node exactly at the bit where they part |
| RdxNext.StrandedIs | src/std_radix.c:719-724 | the step to the left child is taken for a smaller subtree exactly when the key is stranded among the stored keys |
| RdxNext.DetouredIs | src/std_radix.c:683-695 | the descent beyond the key skips an entry exactly when the key is detoured among the stored keys |
| RdxNext.PastExact | src/std_radix.c:719-737 | where to go on when the key ends at the node found |
| RdxNext.PastLarger | src/std_radix.c:751-761 | where to go on when the key is larger than everything around the node found; no ancestor starts at the differing bit |
| RdxNext.PastSmaller | src/std_radix.c:762-768 | where to go on when the key is smaller than everything around the node found |
| RdxNext.GetNext | src/std_radix.c:638-801 | for every input, the result is the least stored key after the given one if and only if the key is neither stranded nor detoured; without a key, the first entry |
| RdxNext.StrandedExample | src/std_radix.c:719-724 | a table of two entries on which the next entry is missed |
| RdxNext.DetouredExample | src/std_radix.c:683-695 | a table of two entries on which the next entry is skipped |
| RdxNext.GetSubtree | src/std_radix.c:497-563 | for every key, stranded or detoured or not, the node whose subtree holds exactly the entries that start with it, or none if there are none |
| RdxWalk.ProceedLeaves | src/std_radix.c:1338-1354 | moves to the right and up leave exactly the same nodes behind |
| RdxWalk.Walk | src/std_radix.c:1302-1367 | a walk visits the entries in the order of their keys, each once, from its start on, and stops exactly when the callback or the count says so; the result is the entry of the node moved on to |
| RdxWalk.Complete | src/std_radix.c:1302-1367 | a walk that nothing stops, of a table with fewer entries than the count, 2^32 - 1 for 0, visits everything that is ahead |
| RdxWalk.WalkPrunes | src/std_radix.c:1398-1402 | a subtree whose top node is too old holds no entry of the window |
| RdxWalk.VersionWalk | src/std_radix.c:1369-1475 | with subtrees skipped, exactly the entries with a version in the window are visited, in order; none without a callback |
| RdxWalk.OneOrder | src/std_radix.c:1326-1359 | there is only one list of all entries in the order of their keys |
| RdxPromise.StartsAsPromised | inc/opx/std_radix.h:393-420 | a complete walk from an entry visits every later entry exactly if no stored key continues its key with a 0, and never the entry itself |
| RdxPromise.StopsAsPromised | inc/opx/std_radix.h:393-420 | a stopped walk returns the next entry exactly if the left child of the last entry's node holds an entry |
| RdxPromise.EndsAsPromised | inc/opx/std_radix.h:393-420 | after a complete walk nothing comes after the last entry visited |
| RdxPromise.StartExample | src/std_radix.c:1315-1359 | a table of two entries on which a walk from the first one visits nothing |
| RdxPromise.StopExample | src/std_radix.c:1325-1366 | a table of two entries on which a walk returns the entry it was stopped at |
| RdxPower.PowerUp | inc/opx/std_radix.h:604-615 | from a leaf to the next node of the subtree, or to its root at the end |
| RdxPower.PowerLoop | inc/opx/std_radix.h:582-619 | the loop terminates and visits the entries of the subtree from the starting node on, each once and in order |
| RdxPower.PowerWalk | inc/opx/std_radix.h:554-619 | the whole macro: the entries that start with the root's key, from the asked one (or the one after it) on; none if that one is elsewhere |
| RdxPower.StoredIsFollowed | src/std_radix.c:638-801 | stored keys are never stranded or detoured |
| RdxPower.ZeroHostBits | src/std_radix.c:683-695 | a key whose address has zeros beyond it is not detoured |
| RdxPower.Chain | src/std_radix.c:682-737 | asking for the next entry from none on lists every entry once, in order, and ends |
| RdxPower.WalkIsChain | src/std_radix.c:1326-1359 | a full walk visits the sequence that the chain lists |
| RdxPower.PowerIsChain | inc/opx/std_radix.h:582-619 | so does the power walk from the root |
| RdxShape.Unique | src/std_radix.c:958-1078 | for a set of keys there is exactly one path-compressed tree |
| RdxShape.TableShape | src/std_radix.c:958-1078 | the shape of any table is that tree for its keys |
| RdxShape.CanonicalShape | src/std_radix.c:1102-1214 | tables with the same keys have the same bits, children and entries, whatever their histories |
| RdxShape.InsertThenRemove | src/std_radix.c:1243-1270 | removing what has just been inserted restores the shape and the map; both are counted |
| RdxShape.FewerForks | src/std_radix.c:1179-1214 | every subtree has fewer branching points without an entry than entries |
| RdxShape.Accounting | src/std_radix.c:1001-1052 | inodes = nodes = nmalloc - nfree, routes = entries, and inodes <= 2*routes - 1 unless the table is empty |
| RdxVersions.Stamp | src/std_radix.c:1696-1701 | exactly the nodes at and above the entry get the version |
| RdxVersions.SetVersion | src/std_radix.c:1682-1708 | the entry gets the next version, no other entry changes, and node versions still bound everything below |
| RdxAgain.InsertStored | src/std_radix.c:869-1083 | inserting a structure that is stored keeps every entry at its own node, and the table valid, exactly if debug mode is off and its key is stored or there is no memory for its node; what is returned and counted in any case; a new entry leaves the structure in its old node, too |
| RdxRuns.Run | src/std_radix.c:803-1283 | after any sequence of insertions, with any answers of the allocations, removals and version changes the table is valid; what is carried out is told by the requests and the entries; the entries, the table's version and the versions of all structures are the fold of that; its shape is that of its keys; counters and the 2n-1 bound; versions bound what is below if structures come in cleared |
| RdxRuns.VersionIs | src/std_radix.c:1682-1708 | the table's version counts the version changes that were carried out |
| RdxRuns.LastVersion | src/std_radix.c:1682-1708 | a structure has the table's version right after the last change carried out for it, or the one that it came in with |
| RdxRuns.TwoRuns | src/std_radix.c:803-1283 | two runs, each with its own outcomes, that end with the same keys end with the same tree |
| Llist.List.InsertAtFront | src/std_llist.c:159-169 | the new node comes before all others, whose order stays |
| Llist.List.InsertAtBack | src/std_llist.c:172-182 | the new node comes after all others |
| Llist.List.InsertAfter | src/std_llist.c:185-196 | the new node comes right after the given one |
| Llist.List.InsertBefore | src/std_llist.c:199-210 | the new node comes right before the given one |
| Llist.List.Remove | src/std_llist.c:213-227 | the node is off the list, its links are cleared, the others keep their order |
| Llist.List.GetFirst | src/std_llist.c:72-81 | the first node, or none on an empty list |
| Llist.List.GetLast | src/std_llist.c:84-93 | the last node, or none |
| Llist.List.GetNext | src/std_llist.c:96-105 | the node right after, or none at the end |
| Llist.List.GetPrev | src/std_llist.c:108-117 | the node right before, or none at the front |
| Llist.List.Insert | src/std_llist.c:138-157 | a sorted list stays sorted, and the new node comes after every node that is not greater; an unsorted one takes it at the back |
| Radical.ChangeList.AheadIsNew | src/std_radical.c:192-311 | ahead of a marker are exactly the changes that its walker is not done with, all newer than the marker and than anything given before |
| Radical.ChangeList.Append | src/std_radical.c:115-134 | the node goes to the back with the next version; every marker's account stays right, and nothing else is seen to change |
| Radical.ChangeList.Drop | src/std_radix.c:1277-1283 | a removed entry leaves the list; every marker's account stays right |
| Radical.ChangeList.Enroll | src/std_radix.c:874-884 | a node that comes into the tree is not on the list: in debug mode its fields are cleared, those for the list only if the list is in use; else the caller has cleared them |
| Radical.ChangeList.Open | src/std_radical.c:66-80 | a new marker has everything ahead of it |
| Radical.ChangeList.OpenAfter | src/std_radical.c:83-101 | a marker aligned with another has the same changes ahead and the same account |
| Radical.ChangeList.Close | src/std_radical.c:104-112 | a closed marker is off the list |
| Radical.ChangeList.GetFirst | src/std_radical.c:137-152 | the first change on the list, past any markers |
| Radical.ChangeList.GetNext | src/std_radical.c:155-170 | the next change after a node, past any markers |
| Radical.ChangeList.NextVersion | src/std_radical.c:173-189 | the least version that is new to the walker, or 0 if there is none |
| Radical.ChangeList.TakeUp | src/std_radical.c:214-224 | the marker is taken off; the next change ahead of its place is found |
| Radical.ChangeList.Deliver | src/std_radical.c:243-246 | the marker goes right behind the change that is handed over |
| Radical.ChangeList.Reject | src/std_radical.c:268-274 | a refused change is ahead again; if it has a new version, everything below that is jumped over |
| Radical.ChangeList.PutDown | src/std_radical.c:292-310 | at the end of a walk all changes up to max_ver have been given |
| Radical.ChangeList.Perform | src/std_radical.c:245-246 | whatever a callback does to the list, walks of other markers with callbacks of their own included, keeps every account; what comes of it, and whether it stops the program, is what the act means for the view |
| Changes.DoneIncluded | src/std_radical.c:245-246 | what a callback has done that is not in its reply, the callbacks of its own walks have done |
| Changes.WhyStopped | src/std_radical.c:83-101 | acts are stopped only by one that follows or walks a marker that is not on the list, or walks with a callback whose last reply does so, or refuses a node that it has removed; what is before that has been carried out |
| Changes.OneWayAll | src/std_radical.c:192-311 | from what is seen of the list, acts can go on in one way only: the nodes, the replies and the order of all calls, nested ones included, and whether and where the program stops, are determined |
| Radical.ChangeList.OneOutcome | src/std_radical.c:192-311 | so it is for every valid list |
| Radical.ChangeList.HandOver | src/std_radical.c:243-275 | one call of the callback: an accepted change is given; a refused one is ahead again and nothing else, unless the callback has appended it anew, and then exactly what is below its new version is jumped over |
| Radical.ChangeList.Visit | src/std_radical.c:216-290 | the loop of the walk ends, whatever the callback does: the versions handed over rise, all new to the walker, up to max_ver |
| Radical.ChangeList.WalkChangeList | src/std_radical.c:192-311 | for any callback, no change is delivered twice or lost; each call is for the change with the least new version, up to max_ver; with max_ver up to the table's version only changes from the beginning are handed over, each at most once; maxnodes and answers end the walk; the marker's version; what all calls have done to the list, and exactly when the program stops |
| Radical.ChangeList.Run | src/std_radical.c:66-311 | any run of appends, removals, other markers and walks, with callbacks that do any of this, is carried out event by event, and what is seen of the list afterwards is what the deeds have made of it; it stops early only at an event that follows or walks a marker that is not on the list, or walks with a callback that does so or refuses what it has removed; the accepted changes rise, and exactly what has been neither accepted nor jumped over is ahead; a walk jumps over something only if its last call refuses a node and has appended that very node anew, itself or by a walk of its own, and then over exactly the changes below the node's new version that have not been had; nothing without such a callback |
| Radical.ChangeList.Prolong | src/std_radical.c:216-290 | a callback that appends anew each node it gets is called more often than max_ver is above the table's version |
| Radical.ChangeList.Lose | src/std_radical.c:259-275 | a callback that appends anew what it refuses: every change that was ahead but the first is behind, and was never handed over |
| Radical.ChangeList.LossExample | src/std_radical.c:259-275 | a run that loses a change |
| Radical.ChangeList.ProcVerWrap | src/std_radical.c:43-63 | each change gets its place as its version, each marker the number of changes behind it; their number is returned |
| Radical.ChangeList.Renumber | src/std_radical.c:43-63 | with the returned value as the table's version, order and accounts are right again |
| ThreadPool.Pool.constructor | src/std_thread_pool.cpp:125-148 | a pool with all workers about to take the lock |
| ThreadPool.Pool.Look | src/std_thread_pool.cpp:96-110 | the oldest job is taken, or the worker sleeps on an empty queue |
| ThreadPool.Pool.PassOn | src/std_thread_pool.cpp:100-103 | with more than one job a blocked worker is woken, if there is one |
| ThreadPool.Pool.Return | src/std_thread_pool.cpp:108-118 | after a job the worker looks again if there are jobs, else it sleeps |
| ThreadPool.Pool.Push | src/std_thread_pool.cpp:64-71 | a job is queued last, or the attempt fails and nothing changes |
| ThreadPool.Pool.Notify | src/std_thread_pool.cpp:72-74 | a blocked worker is woken, if there is one |
| ThreadPool.Pool.Do | src/std_thread_pool.cpp:64-122 | what each step does to the queue, the workers, the lock and the records |
| ThreadPool.Pool.Run | src/std_thread_pool.cpp:64-122 | under any interleaving mutual exclusion, FIFO order, accounting and attention hold; the states follow each other as the steps say; the jobs added, started and finished are those of the steps that were carried out, in order |
| ThreadPool.Pool.Submit | src/std_thread_pool.cpp:64-74 | adding a job from beginning to end queues it and releases the lock |
| ThreadPool.Pool.CalmRun | src/std_thread_pool.cpp:96-122 | without new work and spurious wake-ups only so many steps are possible in a row |
| ThreadPool.Pool.CanGoOn | src/std_thread_pool.cpp:96-122 | as long as a job is queued or unfinished, or anyone has the lock or is awake, such a step is possible: all work gets done, under any schedule |
| ThreadPool.Pool.OnePlace | src/std_thread_pool.cpp:64-111 | every added job is queued, in the hands of exactly one worker, or finished; started in the order of adding |
| ThreadPool.Pool.NotAllAsleep | src/std_thread_pool.cpp:96-119 | with a job queued and the lock free, some worker is on its way to the lock or no worker sleeps |
| EventTree.EffectsAre | src/std_event_service.cpp:239-254 | a client is registered exactly if it asked, with success, and has neither withdrawn nor disconnected since |
| EventTree.ClientTree.Find | src/std_event_service.cpp:221-237 | the node of a key, made if asked; found exactly if each start of the key has a node or memory for one; which nodes there are then; registrations do not change |
| EventTree.ClientTree.RegClient | src/std_event_service.cpp:239-243 | exactly this registration is added, exactly if there is memory for the client and the missing nodes |
| EventTree.ClientTree.DeregClient | src/std_event_service.cpp:245-250 | exactly this registration goes |
| EventTree.ClientTree.RemoveBelow | src/std_event_service.cpp:199-206 | the client disappears from the node and everything below it, and from nothing else |
| EventTree.ClientTree.RemoveFromTree | src/std_event_service.cpp:252-254 | a disconnected client is in no node, and all other registrations stay |
| EventTree.ClientTree.PublishNode | src/std_event_service.cpp:178-197 | each client of the node that has not had the message gets one attempt; failing ones are to be closed |
| EventTree.ClientTree.Publish | src/std_event_service.cpp:256-269 | one attempt for each client registered for a non-empty start of the key, and for no one else; those for shorter starts first |
| EventTree.ClientTree.Serve | src/std_event_service.cpp:221-269 | the same after any sequence of requests, each with memory or without, in terms of the requests; which of them succeed |
| Tlv.LeRoundTrip | inc/opx/std_tlv_internal.h:32-36 | a number below 256^k comes back from its k bytes |
| Tlv.LeBytes | inc/opx/std_tlv_internal.h:32-36 | byte i of a number is its digit for 256^i |
| Tlv.FieldsAre | inc/opx/std_tlv.h:57-90 | tag and length of a header, as sums of its bytes, the least significant one first |
| Tlv.FieldsOfItem | inc/opx/std_tlv.h:76-105 | tag, length, total length and data of an encoded item |
| Tlv.Add | inc/opx/std_tlv.h:148-155 | the item is written at its place, byte by byte: tag and length with the least significant byte first, then the value; nothing else changes, with exact space accounting, or nothing happens |
| Tlv.AddAll | inc/opx/std_tlv.h:148-155 | items are written one after the other until one does not fit |
| Tlv.Next | inc/opx/std_tlv.h:220-226 | a step forward keeps the end of the bytes in place, a refused one changes nothing |
| Tlv.ReadAll | inc/opx/std_tlv.h:220-226 | stepping through the used bytes recovers the list |
| Tlv.RoundTrip | inc/opx/std_tlv.h:148-226 | a list that fits is written and read back, and the space used is its size |
| TlvSearch.Termination | inc/opx/std_tlv.h:235-241 | the loop ends exactly if it comes to no header of length 2^64 - 16 before one with the tag, and then with the first valid header with the tag |
| TlvSearch.FindNext | inc/opx/std_tlv.h:235-241 | on every input on which it stays in the buffer and ends: the first valid header with the tag and the bytes from there on, or none and the bytes left |
| TlvSearch.InsideIff | inc/opx/std_tlv.h:235-241 | a search over all bytes of a buffer leaves it exactly if it comes to a place with 1 to 15 bytes left |
| TlvSearch.OutsideExample | inc/opx/std_tlv.h:235-241 | one stray byte behind an item makes a search for another tag leave the buffer |
| TlvSearch.StallExample | inc/opx/std_tlv.h:235-241 | an item of length 2^64 - 16: the search for another tag goes on forever |
| TlvSearch.OverflowExample | inc/opx/std_tlv.h:209-218 | an item of length 2^64 - 15 is found although its value is not there |
| TlvSearch.StepShortens | inc/opx/std_tlv.h:220-226 | a step forward shortens what is left exactly if the length is not 2^64 - 16 |
| TlvSearch.CompleteIff | inc/opx/std_tlv.h:209-226 | the value of a valid item is all there exactly if its length is less than 2^64 - 16 |
| TlvSearch.EFind | inc/opx/std_tlv.h:256-268 | the level-by-level first match, and the length unchanged without one |
| TlvSearch.NestedIff | inc/opx/std_tlv.h:256-268 | what is found is complete at every level of the path exactly if none of the lengths found is 2^64 - 16 or more |
| TlvSearch.LocateInside | inc/opx/std_tlv.h:256-268 | then the item that the path leads to is complete and inside the bytes searched |
| TlvSearch.EncodingIsRead | inc/opx/std_tlv.h:209-226 | the headers met in an encoding are those of the items encoded, one by one, each with its value |
| TlvSearch.EFindIsLookup | inc/opx/std_tlv.h:244-268 | on a nested encoding the search ends and finds the encoding of the tree that the path of tags leads to |

## Left out

- Radix deferred deletion: `rtn_lock`, `RDX_RN_DELE_BIT` and callbacks that remove nodes while a walk runs; walks are modelled with callbacks that change nothing.
- RdxTable.Table.RemoveNode: does not model the walking direction that `_std_radix_remove` reports (only deferred deletion uses it), nor the user's free function and the reset of `rdx_rth_addr`.
- RdxTable.Table.Insert: is for structures that are not in the table; `RdxAgain.InsertStored` is the same function for the others. It does not model the byte-order conversion of addresses (`rtt_convert`, `temp`) and the address copies it allocates.
- Cached fields: `rtn_tbit` is computed from the bit number; the table `first_bit_set` is a function.
- Counters and versions are unbounded numbers: `rtt_nwraps` and the wrap of versions at their type's maximum are not modelled, except for the renumbering that follows a wrap. So versions pass any `max_ver`, also the type's maximum, which in the code bounds nothing.
- RbNodes.Table.Insert: does not model the allocation of nodes by the public wrappers; the key inside the user's data is abstracted by the comparison function.
- Radical.ChangeList.Perform: a callback does nothing to the markers of the walks that it is called in; any others it may open, close and walk.
- Radical.ChangeList.WalkChangeList: does not model the counter `rtt_radicalinuse` and the int wrap of `maxnodes` when it counts down from -1.
- Radical.ChangeList.Run: does not contain renumbering, after which versions mean something else; `Renumber` is proved on its own.
- Mixing change-list stamps with the version-pruned radix walk: appends do not raise the versions of nodes above, so the two version theorems are about separate uses.
- The FIFO macros of the list.
- Thread pool: shutdown, the destruction of the condition variable and thread creation failures.
- EventTree.ClientTree.PublishNode: leaves the order of the clients of one node open; the close of a failing client is an output, its later effect is `RemoveFromTree`.
- Event service: `clean_empty_nodes`, locking, socket framing and buffer sizes.
- TlvSearch.FindNext: what the code does with a header that is not all in the buffer is not modelled, because it reads foreign memory there; `InsideIff` tells when that happens.
- Tlv: the fixed-width additions and reads are `Add` and `LeRoundTrip` on 2, 4 or 8 bytes.
- Merge sort, bit masks, address mask tables, error packing, text and configuration handling, sockets, files and other system calls: easy or foreign members.
