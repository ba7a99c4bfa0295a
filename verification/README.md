# Verified models of the repository's engines

This project models, in Dafny, the data-structure and protocol engines of the repository whose implementation is furthest
from what they mean: a B+tree that rewrites its own separators and re-finds nodes by key, a database in a file whose
B-tree is split and merged in one walk from the root down, a red-black tree over relinked heap nodes, a framing protocol
with a byte-at-a-time receiver and a buffered sender, a radix tree that prunes and recycles its nodes, an in-place sort of
a circular list, and a base64 codec. Each is written in the form of the program (classes whose methods assign fields,
loops over arrays) and proved against what it stands for: a map, a sorted sequence, a sequence of messages, a prefix
table, a stable permutation, a stream of bits.

`dafny verify dfyconfig.toml` checks everything.

| files | what they hold |
|---|---|
| `btree_levels.dfy`, `btree_steps.dfy`, `btree_proofs.dfy` | rows of a B+tree as sequences of intervals; what a split, steal, merge, grow or shrink does to them |
| `btree_shape.dfy` | how full the nodes of a B+tree are, and what an insertion asks for and a removal gives back because of it |
| `btree.dfy`, `btree_words.dfy` | the B+tree itself: search, insert, remove, lookup, last, merge of two trees; keys of several words |
| `filedb_rows.dfy`, `filedb_blocks.dfy`, `filedb_steps.dfy`, `filedb_moves.dfy`, `filedb_edits.dfy` | the B-tree of the file database as rows of edges; what a split, borrow, merge, lift, collapse or replacement does to them |
| `filedb_disk.dfy`, `filedb_state.dfy`, `filedb_values.dfy`, `filedb_shrink.dfy`, `filedb_drop.dfy` | blocks, free list, totals and stored values; what each operation does to the state |
| `filedb_supply.dfy` | how many blocks an insertion takes, read off the state before it |
| `filedb.dfy`, `filedb_keys.dfy` | the file database itself: insert, delete, search, check; its four key comparisons |
| `rb_order.dfy`, `rb_cells.dfy`, `rb_colours.dfy`, `rb_fixup.dfy`, `rb_bounds.dfy` | a red-black tree as numbered cells: order, rotations, colours, the repair of an insertion and of a deletion, height |
| `rbtree.dfy` | the red-black tree over heap nodes with parent pointers and a shared sentinel |
| `tf_format.dfy`, `tf_link.dfy`, `tf_parser.dfy`, `tf_xor.dfy` | the frame format, what a receiver makes of a stream, what the parser's registers say about it, the xor checksum |
| `tinyframe.dfy` | the receiver's state machine and the buffered sender |
| `ngx_radix.dfy` | the 32-bit radix tree with its free list |
| `ngx_queue.dfy` | the circular list: its link macros, the middle, the stable sort |
| `base64.dfy` | base64 encoding and decoding (sections 4 and 5 of RFC 4648) |
| `octets.dfy`, `grants.dfy` | bytes and powers of two; what requests for memory or room are granted |

## Conventions

- B+tree: memory is a map from addresses to nodes of `N` slots, so that a value word can be a user's value or the address
  of a child, and a key argument can be a pointer into a node that changes under the callee (`KeyRef`). Keys are numbers;
  a key of several words is the number its words spell, the first word on top (`BtreeWords.Longcmp`). Words are 64 bits
  wide. `calloc` is a parameter: `grants` says of each call whether it has memory, `calls` counts the calls. So is what
  lies in memory behind a node, `beyond`. `BtreeShape.Fills` says how many pairs each node holds, level by level.
- File database: the file is a map from addresses to blocks, the head of the file the fields of the object. Whether the
  file can be made longer is a parameter, `grows`, asked `asks` times; other reads and writes succeed. `rows` lists the
  tree level by level, each edge with the pair on its right; row 0 lists the pairs; `lost` are the key blocks in use that
  the tree does not lead to. Inside the tree a key is the number that stands for it (`FileKeys.Rank`), and
  `FileKeys.CmpByRank` says that the program's comparison is that of these numbers; integer keys stand for their
  distance, modulo 2^32, from `base`, and lie in less than half of that range.
- Red-black tree: the ghost sequence `ns` lists the nodes in order; the ghost cells `cs` say for each position its
  children, parent, colour, the stretch it covers and its black height. All rules are local to a cell.
- TinyFrame: field widths, start byte, buffer size, timeout and the checksum are a `Config`; the checksum step is a
  function parameter whose result fits its field. The listeners are one list of handled messages.
- Radix tree: a prefix is a string of bits; `s.at` gives the live node of each prefix, `s.vals` its value, `s.fl` the
  free nodes, `s.mem` the fields of every node ever handed out. Pages are granted or refused by the parameter `grants`.
- List: the comparison is a function of two nodes and a total preorder on the nodes of the list, as the callback is.

## Model

| member | source | states |
|---|---|---|
| Btree.Btree.Insert | lib_btree/btree.c:463-467 | Inserting an absent key with a non-null value leaves a well-formed tree for the old map plus that pair, and as many more nodes as `calloc` calls were due. How many are due is read off the fills of the tree before: none when the leaf for the key is not full or a leaf beside it, in the same node, has two free slots, and never more than one for each level and one for a new root. It fails exactly when one of these is refused, and then the map is the old one and no node is left behind. Of the leaves the one the key is in holds one more pair, after the full one was eased |
| Btree.Btree.InsertLevel | lib_btree/btree.c:423-461 | The recursion over levels terminates, enters exactly the pair (key, value) in the row it is called for, with an aliased key pointer too, makes exactly the calls due, and changes nothing below; of the nodes of the level only the one that takes the pair grows, after easing |
| Btree.Btree.InsertInto | lib_btree/btree.c:436-460 | The retry loop goes round once, or twice when a rebalance had to make room: after it the node found is not full, so `BUG_ON` is not reached; a refused allocation leaves the pairs and the nodes as they were |
| Btree.Btree.RebalanceInsert | lib_btree/btree.c:380-421 | Makes room for the key in the node it is routed to: without any `calloc` call and without failing whenever a neighbour in the same node holds at most N - 2 pairs, to which half of its free slots go, the left one first; by a split otherwise, failing exactly when one of the calls due is refused, leaving the pairs as they were |
| Btree.Btree.Split | lib_btree/btree.c:349-378 | Splits a full node in two, of N / 2 and the other pairs, entered under the parent's new separator; on failure the pairs stand, and the nodes in memory are those from before |
| Btree.Btree.FindLevel | lib_btree/btree.c:242-265 | Ends in the one node of the level whose interval holds the key, whatever separators it lowers on the way, and changes nothing at that level or below |
| BtreeShape.RouteIs | lib_btree/btree.c:242-265 | The node a search ends in is told by the upper bounds of the row alone, so lowering separators never leads elsewhere |
| Btree.Btree.Grow | lib_btree/btree.c:267-284 | Puts a root on top that lists the old root, or makes the first leaf; nothing changes when memory is refused |
| BtreeShape.TakesHere | lib_btree/btree.c:393-416 | The neighbours tried, by position in the parent, are those whose counts of pairs say so |
| BtreeShape.CallsBound | lib_btree/btree.c:349-461 | At most one call for every level, and one more for a new root |
| Btree.Btree.Remove | lib_btree/btree.c:597-604 | Removing a present key returns its value and leaves exactly the old map without it; removing an absent one leaves the map alone if and only if it is not `Misread`, and otherwise drops exactly the next greater key; a word behind a node is read, and returned, exactly when a full leaf without a spare word is overrun. How many nodes are given back, and how full the leaves are afterwards, is read off the fills before: in a tree of several levels some are exactly when the leaf is left with few pairs and a leaf beside it, in the same node, can take them |
| Btree.Btree.RemoveLevel | lib_btree/btree.c:559-595 | Removes the pair the key names from the row of its level through cascading merges, steals and the shrinking of the root; every non-root node keeps between 2 and N pairs |
| Btree.Btree.Rebalance | lib_btree/btree.c:491-557 | After a removal the level has no underfull node again and lists the same pairs below; its `BUG` is not reached. A node left with few pairs is joined with a neighbour exactly when they fit in one, the left one first, and only a node down to one pair is dealt half of the difference to a neighbour |
| Btree.Btree.Merge | lib_btree/btree.c:471-489 | Joins two neighbours although the key pointer it passes up, into the parent, reads as another key once the recursion has shifted the parent |
| BtreeShape.FreesLow | lib_btree/btree.c:500-524 | A node goes after losing a pair exactly when it is left with fewer than N / 2 and a neighbour in the same node can take them |
| Btree.Btree.Lookup | lib_btree/btree.c:188-215 | Agrees with the map on every key, and gives null for the others |
| Btree.Btree.Last | lib_btree/btree.c:168-180 | Gives the greatest key, and nothing exactly when the map is empty |
| Btree.Btree.Absorb | lib_btree/btree.c:606-637 | Merging key-disjoint trees terminates, never loses or duplicates a pair, and unless an allocation is refused leaves the victim empty and the target with the union; an empty target takes over the nodes without any call |
| BtreeProofs.OverrunHere | lib_btree/btree.c:217-227 | Of all full leaves above a key only the one the search ends in can be overrun, so the condition of `Remove` is about one leaf |
| BtreeProofs.MissingKey | lib_btree/btree.c:569-573 | The test for a found key succeeds on an absent one exactly when the key is `Misread` |
| BtreeProofs.OwnKey | lib_btree/btree.c:566-575 | What the position found for a key says: it is the key's pair when the key is there, and the pair next above when the key is misread |
| BtreeProofs.HeldAt | lib_btree/btree.c:483-488 | A key read through a pointer into a node is found again in that very slot |
| BtreeProofs.PairsRemoved | lib_btree/btree.c:577-581 | A row without its p-th pair stands for the map without that key |
| BtreeLevels.ChainKids | lib_btree/btree.c:242-265 | If the intervals of a level are disjoint and descending, so are those of the level below |
| Btree.RemoveAbsentZero | lib_btree/btree.c:566-582 | A run: removing the absent key 0 from a tree with the single key 5 empties it |
| Btree.RemoveAbsentOverrun | lib_btree/btree.c:566-582 | A run with 128-bit keys: five keys with value 1 fill a leaf; removing the absent key spelled by the words 1, 1 drops the least of them |
| BtreeWords.Longcmp | lib_btree/btree.c:42-53 | Orders keys of several words exactly as the numbers they spell |
| BtreeWords.FirstDiffers | lib_btree/btree.c:46-51 | The first differing word decides between two numbers |
| FileDb.Db.constructor | sdb_test/filedb.c:230-291 | A new file is a well-formed database for the empty map; a slot has the next multiple of 16 bytes that holds a key of the size asked for, and M is the greatest number of keys that fit a block with one to spare |
| FileDb.Db.Create | sdb_test/filedb.c:202-291 | Accepts string and byte keys of 4 to 128 bytes, 32-bit keys of 4 and 64-bit keys of 8, and refuses every other key type or size |
| FileDb.Db.Insert | sdb_test/filedb.c:524-645 | Stores exactly the pair, unless the key is there (0), its value does not fit a block or the file cannot grow (-1), which leave the map alone; the tree, the free list, the reference counts and the totals of the head stay right although nodes were split on the way. The blocks taken are counted from the state before: two for a full root, one for each full node on the way, one for the value only when the current block lacks room; the file grows by what the free list is short of, and the insertion fails exactly when it cannot. A key block is lost exactly when the file runs out between the two blocks a full root needs |
| FileDb.Db.Delete | sdb_test/filedb.c:659-832 | Returns 1 exactly when the key was stored, and leaves exactly the map without it; a miss too may restructure the tree, and everything stays right |
| FileDb.Db.Search | sdb_test/filedb.c:848-872 | Gives the stored value and its length exactly when the key is stored and its value fits the room, and otherwise -1 |
| FileDb.Db.InsertKey | sdb_test/filedb.c:518-645 | The same for keys as the caller gives them, of any of the four types, with the same count of blocks: too long a string is refused, and afterwards every usable key finds what it found before, but for those the program does not tell from the new one |
| FileDb.Db.DeleteKey | sdb_test/filedb.c:653-832 | Too long a string is refused; otherwise exactly the keys not told from the one deleted lose their value |
| FileDb.Db.SearchKey | sdb_test/filedb.c:842-872 | Finds the value of the key exactly when there is one and it fits |
| FileDb.RefusedRepeat | sdb_test/filedb.c:101-103 | A run: with 64-bit keys, 2^32 is refused as a repeat of 0, and finds the value of 0 |
| FileDb.SecondValue | sdb_test/filedb.c:605-623 | A run: in a file that can grow only once, a second value goes behind the first |
| FileDb.Db.Checker | sdb_test/filedb.c:298-364 | Succeeds exactly when key type, key size, alignment and M go together, every block is in its place, and the pairs, the references and the blocks in use are as many as the head says |
| FileDrop.ValidIsChecked | sdb_test/filedb.c:340-362 | The checker accepts the database after every operation |
| FileDb.Db.KeyBinarySearch | sdb_test/filedb.c:427-442 | Gives the index of the key or minus one minus the number of smaller keys |
| FileDb.Db.NodeCreate | sdb_test/filedb.c:141-175 | Hands out a cleared block that was not in use, from the free list or the end of the file; every other block stays; fails exactly when the free list is empty and the file cannot grow, and then changes nothing |
| FileDb.Db.NodeDestroy | sdb_test/filedb.c:180-193 | The block goes to the front of the free list and out of the totals |
| FileDb.Db.SplitChild | sdb_test/filedb.c:455-473 | Writes the parent with the middle pair and the two halves, and nothing else |
| FileDb.Db.StepDown | sdb_test/filedb.c:558-594 | One level down with a full child split first, which takes one block: the pairs stay, the key lies in the child entered, which has room; or the key has been met; or the file cannot grow, and nothing has changed |
| FileDb.Db.GrowRoot | sdb_test/filedb.c:540-556 | A full root is moved down and split, the tree is one level higher, and the pairs stay; when the file cannot grow the tree stays, and one block is lost exactly if one of the two could be had |
| FileDb.Db.BlockToFill | sdb_test/filedb.c:605-615 | The current block when the value fits it, without asking for anything and without another block; a new one otherwise |
| FileDb.Db.StoreValue | sdb_test/filedb.c:605-623 | Puts the value behind those of the current block when it has room, and at the start of a new one otherwise, where no stored value lies; without room for a new block nothing changes but that no block is current |
| FileSupply.SplitsAreLevels | sdb_test/filedb.c:558-594 | The splits counted are the levels below the root on which the node of the key is full |
| FileSupply.NothingWanted | sdb_test/filedb.c:524-645 | With no full node on the way of the key and room in the current block an insertion takes no block |
| FileDb.Db.Enter | sdb_test/filedb.c:717-780 | Enters the child as it is when it has a key to spare; otherwise it borrows from the right neighbour if that has one, then from the left, and only when none has is it merged, which frees a block. The pairs stay, and a node below the root has enough keys to lose one |
| FileDb.Db.Match | sdb_test/filedb.c:688-715 | For a pair met above the leaves: enters the left child if it has a key to spare, else the right one if that has, changing nothing; otherwise merges the two children around it, which frees a block, and follows it down |
| FileDb.Db.Join | sdb_test/filedb.c:482-510 | Merging two children keeps the pairs, empties a node only if it is the root, which then gives the tree one level less, and leads to the node that holds the keys of both |
| FileDb.Db.BorrowRight | sdb_test/filedb.c:736-751 | A pair moves through the parent from the right neighbour, with the child beside it |
| FileDb.Db.BorrowLeft | sdb_test/filedb.c:752-767 | The mirror image |
| FileDb.Db.ReplacePair | sdb_test/filedb.c:784-802 | The neighbour takes the place of the pair met above, whose block was read before the levels below were rebuilt: exactly that pair is gone |
| FileDb.Db.ReleaseValue | sdb_test/filedb.c:816-828 | A value block is freed exactly with its last reference; no other pair loses its value |
| FileSteps.Restructure | sdb_test/filedb.c:455-510 | Children of one node may be exchanged for others that lead to the same row: all levels stay a tree over the same pairs |
| FileMoves.SplitOk | sdb_test/filedb.c:455-473 | A split leaves a tree over the same pairs |
| FileMoves.MergeOk | sdb_test/filedb.c:482-510 | So does a merge |
| FileMoves.ShareOk | sdb_test/filedb.c:736-767 | So does moving a pair from a neighbour |
| FileEdits.SwapOk | sdb_test/filedb.c:784-802 | Replacing a pair of an inner node keeps every separator what it was for |
| FileEdits.LiftOk | sdb_test/filedb.c:540-556 | Moving the root's content into a child leaves a tree one level higher |
| FileEdits.CollapseOk | sdb_test/filedb.c:499-507 | Taking over the content of the only child leaves a tree one level lower |
| FileDisk.TotalWrite | sdb_test/filedb.c:343-356 | Writing one block changes the totals by what it counts, whatever the rest of the file |
| FileValues.HoldsOld | sdb_test/filedb.c:616-623 | A value put in a block leaves every value already there as it was |
| FileValues.HoldsNew | sdb_test/filedb.c:616-623 | And it can be read back |
| FileKeys.BytesAgree | sdb_test/filedb.c:93-95 | Byte keys compare as the numbers they spell |
| FileKeys.StringsAgree | sdb_test/filedb.c:89-91 | String keys compare as the numbers spelled by their bytes and the zeros behind them |
| FileKeys.Int32Agrees | sdb_test/filedb.c:97-99 | 32-bit keys compare as numbers exactly when their difference is a 32-bit number |
| FileKeys.Int64Equal | sdb_test/filedb.c:101-103 | 64-bit keys compare as equal exactly when they differ by a multiple of 2^32 |
| FileKeys.Int64Agrees | sdb_test/filedb.c:101-103 | 64-bit keys compare as numbers exactly when what is left of their difference modulo 2^32, read as a 32-bit number, has its sign |
| FileKeys.OrderedRange | sdb_test/filedb.c:97-103 | The integer keys from lo to hi, of either width, all compare as numbers exactly when hi - lo < 2^31 |
| FileKeys.CmpByRank | sdb_test/filedb.c:89-103 | For every key type the comparison has the sign of that of the numbers the keys stand for, and these are equal exactly for keys it does not tell apart |
| Rbtree.Tree.Insert | struct_data/ngx_rbtree/ngx_rbtree.c:24-93 | Adds exactly the node, after every node not above it and before every node above it, and keeps every red-black rule on the heap |
| Rbtree.Tree.InsertValue | struct_data/ngx_rbtree/ngx_rbtree.c:96-118 | Hangs the node in as a leaf at its place in key order |
| Rbtree.Tree.InsertTimerValue | struct_data/ngx_rbtree/ngx_rbtree.c:121-153 | The same in the order of signed differences, for keys in a window shorter than half the key range, across wrap-around |
| Rbtree.Tree.Delete | struct_data/ngx_rbtree/ngx_rbtree.c:156-320 | The in-order sequence loses exactly that node, and the root and sentinel are black, no red node has a red child, black heights agree and parents fit children again |
| Rbtree.Tree.RotateLeft | struct_data/ngx_rbtree/ngx_rbtree.c:323-350 | Relinks the heap nodes to the rotated tree with the same in-order sequence |
| Rbtree.Tree.RotateRight | struct_data/ngx_rbtree/ngx_rbtree.c:353-380 | The mirror image |
| Rbtree.Tree.Min | struct_data/ngx_rbtree/ngx_rbtree.h:73-81 | Gives the first node of a subtree in order |
| Rbtree.Tree.Next | struct_data/ngx_rbtree/ngx_rbtree.c:383-409 | Gives the next node in order, or null after the last, although the root's parent may be stale |
| Rbtree.Tree.Walk | struct_data/ngx_rbtree/ngx_rbtree.c:383-409 | From the least node on, one Next after another meets every node once, in order, and ends; timers in a window come in the order of their distance from its start |
| Rbtree.Tree.Low | struct_data/ngx_rbtree/ngx_rbtree.c:24-93 | The height of every well-formed heap tree is at most 2 * log2(n + 1) |
| Rbtree.Tree.SameBlackNodes | struct_data/ngx_rbtree/ngx_rbtree.c:156-320 | All walks over the nodes from the root to the sentinel meet the same number of black nodes |
| RbBounds.HeightBound | struct_data/ngx_rbtree/ngx_rbtree.c:24-93 | The bound for the cells: 2 to the height is at most (n + 1) squared |
| RbBounds.SameBlacks | struct_data/ngx_rbtree/ngx_rbtree.c:156-320 | The black height stored for a cell is that of every path below it |
| RbBounds.InOrderIsRange | struct_data/ngx_rbtree/ngx_rbtree.c:383-409 | Reading a subtree in order gives the positions it covers, each once |
| RbCells.RotLinked | struct_data/ngx_rbtree/ngx_rbtree.c:323-350 | A rotation keeps the cells one binary tree with the same in-order sequence |
| RbFixup.TwistFix | struct_data/ngx_rbtree/ngx_rbtree.c:54-58 | The inner case of an insertion's repair becomes the outer one |
| RbFixup.LiftFix | struct_data/ngx_rbtree/ngx_rbtree.c:60-63 | The last rotation of an insertion leaves no red node with a red child |
| RbFixup.RedSibling | struct_data/ngx_rbtree/ngx_rbtree.c:256-261 | Turning a red sibling up keeps the one short place short and gives it a black sibling |
| RbFixup.PassUpShort | struct_data/ngx_rbtree/ngx_rbtree.c:263-265 | Reddening the sibling passes the missing black one level up |
| RbFixup.SettleGood | struct_data/ngx_rbtree/ngx_rbtree.c:267-279 | The last rotation of a deletion repays the missing black and restores every rule |
| RbOrder.LessIsByRank | struct_data/ngx_rbtree/ngx_rbtree.c:121-145 | Inside a window shorter than half the range the signed difference orders keys by their distance from its start |
| TfLink.RunSound | tf_demo/TinyFrame.c:582-718 | Over every byte stream and tick pattern each message delivered is a contiguous stretch of the input equal to the frame the composer makes of it, and no two overlap |
| TfLink.FrameArrives | tf_demo/TinyFrame.c:582-718 | A frame that begins at an idle receiver, or after a timeout whatever the receiver was left in, and comes without one is delivered exactly once; one too long to store is taken in to exactly its last byte without delivery; the receiver is idle again |
| TfLink.Resync | tf_demo/TinyFrame.c:582-610 | After any input and then silence for the timeout a frame arrives as if nothing had come before it |
| TfLink.PrefixWaits | tf_demo/TinyFrame.c:582-718 | No proper beginning of a frame is decided on |
| TfLink.FrameJudged | tf_demo/TinyFrame.c:772-862 | The receiver reads back from a whole frame exactly the message it was made of |
| TfLink.BadHead | tf_demo/TinyFrame.c:647-658 | A header with a wrong checksum is given up with its last byte, and nothing is handed over |
| TfLink.BadBody | tf_demo/TinyFrame.c:701-714 | So is a payload with a wrong checksum |
| TinyFrames.TinyFrame.AcceptChar | tf_demo/TinyFrame.c:582-718 | The state machine takes the byte as `Take` says on the whole window since the frame began, with every store in range |
| TinyFrames.TinyFrame.Feed | tf_demo/TinyFrame.c:551-557 | For an object, any bytes and ticks in any order keep the parser in order and every message handed over sound |
| TinyFrames.TinyFrame.Receive | tf_demo/TinyFrame.c:551-718 | The same for an object: the frame is handed to the listeners exactly once, and the parser is idle |
| TinyFrames.TinyFrame.Tick | tf_demo/TinyFrame.c:1061-1069 | Counts a tick up to the timeout |
| TinyFrames.TinyFrame.ComposeHead | tf_demo/TinyFrame.c:772-815 | Writes the header of the message with its checksum; a new id is the counter without its top bit, which says which peer made it, and the counter goes on by one |
| TinyFrames.TinyFrame.SendChunk | tf_demo/TinyFrame.c:900-920 | Whatever the buffer size, what has been written and what waits together grow by exactly the bytes given, if and only if no turn of the loop is longer than a payload can be (`Uncut`); otherwise by what the casts leave |
| TinyFrames.TinyFrame.SendEnd | tf_demo/TinyFrame.c:927-943 | Everything is written, with the checksum of the payload when there is one |
| TinyFrames.TinyFrame.Send | tf_demo/TinyFrame.c:955-966 | The pieces written are one whole frame of the message, of which only the last leaves room in the buffer, or nothing; a new message takes the next id of the counter |
| TinyFrames.TinyFrame.SendRow | tf_demo/TinyFrame.c:772-815 | Messages sent one after another go out whole, in order, and among any half of the id range of new ones in a row no two have the same id |
| TinyFrames.TinyFrame.SendMultipart | tf_demo/TinyFrame.c:1019-1055 | However the payload is split, one frame comes out; a message announced empty comes out twice |
| TinyFrames.Exchange | tf_demo/TinyFrame.c:551-966 | Between two peers a message whose payload fits is delivered exactly once, with its id, type and payload, to a receiver that is idle or has timed out |
| TinyFrames.ExchangeParts | tf_demo/TinyFrame.c:551-1055 | The same for a message in parts, and exactly twice when it is empty |
| TfXor.OneByteShows | tf_demo/TinyFrame.c:60-68 | One changed byte always changes the xor checksum |
| TfXor.CheckParity | tf_demo/TinyFrame.c:60-68 | A bit of the checksum is set exactly when an even number of the bytes have it |
| TfXor.SampleFrame | tf_demo/TinyFrame.c:772-862 | A message in the shipped configuration as the bytes that go over the wire |
| TfXor.ShippedOk | tf_demo/TF_Config.h:22-67 | The shipped configuration is one the theorems speak of |
| RadixTrees.Tree.Insert | struct_data/ngx_radix_tree/ngx_radix_tree.c:108-170 | For every mask, of which only the leading ones count: busy exactly when the prefix is stored; otherwise stores exactly the pair, unless a page is refused: then nothing is stored and exactly the nodes made so far stay, without values; the value that means none stores nothing and leaves exactly the path. The pages asked for are those the missing nodes need beyond the spare ones |
| RadixTrees.Tree.Delete | struct_data/ngx_radix_tree/ngx_radix_tree.c:173-234 | The store loses exactly the prefix, and exactly the childless line of nodes up to the first with a value or another child goes; it succeeds exactly when the prefix is stored or has a childless node without a value, so exactly when stored as long as no insertion failed; mask 0 follows a null pointer exactly on a tree that is only its root |
| RadixTrees.Tree.Find | struct_data/ngx_radix_tree/ngx_radix_tree.c:237-263 | Gives the value of the longest stored prefix of the key |
| RadixTrees.MatchIsLongest | struct_data/ngx_radix_tree/ngx_radix_tree.c:237-263 | What Match means: a stored prefix and no longer one, or no value when no prefix is stored |
| RadixTrees.SameFirst | struct_data/ngx_radix_tree/ngx_radix_tree.c:120-133 | Two keys have the same first n bits exactly when they are the same number after division by 2^(32 - n) |
| RadixTrees.MatchInNumbers | struct_data/ngx_radix_tree/ngx_radix_tree.c:237-263 | The same in numbers: the value of the longest stored prefix that is what is left of the key without its last bits |
| RadixTrees.Tree.Alloc | struct_data/ngx_radix_tree/ngx_radix_tree.c:463-488 | The node handed out is the head of the free list, or neither live nor free; a page is asked for exactly when nothing is spare; and live, free and handed-out nodes are all there ever were |
| RadixTrees.Tree.PruneAll | struct_data/ngx_radix_tree/ngx_radix_tree.c:206-232 | The node and exactly the ancestors up to the first with a value or another child go to the free list, the rest stays, and every leaf still carries a value |
| RadixTrees.HungOk | struct_data/ngx_radix_tree/ngx_radix_tree.c:150-161 | A node hung in below another, fresh or recycled, leaves a tree and a free list that are apart |
| RadixTrees.CutOk | struct_data/ngx_radix_tree/ngx_radix_tree.c:206-216 | So does a childless node cut off |
| RadixTrees.MaskBit | struct_data/ngx_radix_tree/ngx_radix_tree.c:120-133 | Bit i of a prefix-shaped mask is set exactly for i below its length |
| RadixTrees.DeleteUnstored | struct_data/ngx_radix_tree/ngx_radix_tree.c:144-170 | A run in which a failed insertion makes a later deletion of a prefix never stored succeed |
| RadixTrees.LookUp | struct_data/ngx_radix_tree/ngx_radix_tree.c:108-263 | A run: 64.0.0.0/8 is found for 64.1.2.3 and not for 10.0.0.1 |
| Queues.Queue.Sort | struct_data/ngx_queue/ngx_queue.c:37-67 | Leaves a well-linked circular list that is sorted and a stable permutation of the original nodes |
| Queues.OnlyOne | struct_data/ngx_queue/ngx_queue.c:34-67 | Sorted and stable determine the result: there is only one such sequence |
| Queues.Insertion | struct_data/ngx_queue/ngx_queue.c:52-66 | Putting a node behind the last one not greater keeps the order and passes no equal node |
| Queues.Queue.Middle | struct_data/ngx_queue/ngx_queue.c:4-31 | Gives the node at index n/2, and the head of an empty list |
| Queues.Queue.InsertTail | struct_data/ngx_queue/ngx_queue.h:33-37 | The node goes behind all others of the circular list |
| Queues.Queue.Empty | struct_data/ngx_queue/ngx_queue.h:19-20 | The head is its own predecessor exactly when the list has no nodes |
| Queues.Queue.Split | struct_data/ngx_queue/ngx_queue.h:77-83 | Cuts the list in two well-linked ones |
| Queues.Queue.Add | struct_data/ngx_queue/ngx_queue.h:86-90 | Joins two lists, the second of which may be empty |
| Base64.Encode | nginx_module/ngxlib/ngx_string.c:27-68 | The characters written carry the bits of the input six at a time, padded or not, in either alphabet, and nothing behind them is touched |
| Base64.LetterListed | nginx_module/ngxlib/ngx_string.c:10-22 | The letter for v is the v-th of the alphabet, written out, for both alphabets |
| Base64.OneEncoding | nginx_module/ngxlib/ngx_string.c:27-68 | The bytes and the mode determine the encoding |
| Base64.EncodeSample | nginx_module/ngxlib/ngx_string.c:27-68 | A run: the byte 0xFB becomes "+w==" padded, and "-w" in the alphabet for URLs |
| Base64.SampleTwo | nginx_module/ngxlib/ngx_string.c:27-68 | What two more inputs encode as, one of them a test vector of section 10 of RFC 4648 |
| Base64.Decode | nginx_module/ngxlib/ngx_string.c:122-165 | Succeeds exactly when no foreign character stands before the first '=' and the length before it is not 1 mod 4, and then gives the whole bytes of the characters' bits; otherwise the buffer is untouched |
| Base64.RoundTrip | nginx_module/ngxlib/ngx_string.c:27-165 | What encoding gives is decodable, and the bytes encoded are its one decoding |
| Base64.ThereAndBack | nginx_module/ngxlib/ngx_string.c:27-165 | Encoding and then decoding returns the input, in both alphabets, with and without padding |
| Base64.EncodedLength | nginx_module/ngxlib/ngx_string.h:39-39 | (n + 2) / 3 * 4 characters with padding, (8 n + 5) / 6 without |

## Findings

Where the code does not do what it promises, the contracts state what it does and exactly when.

- An absent key can be removed from a B+tree's neighbour (`btree_remove_level`, lib_btree/btree.c:559-595). The search
  ends at a position whose key is compared with the one sought even when that position is behind the pairs of the leaf.
  If the leaf has room the slot there is cleared and reads as key 0; if it is full the words read are the first values.
  Either way the pair before it, the least key above the one sought, is dropped. If the leaf is full and its nodes have
  no word behind the last value (32- and 64-bit keys on a 64-bit machine) the value returned is read from behind the
  node. `BtreeProofs.Misread` is the exact condition; `Btree.Btree.Remove` proves both directions, for both kinds of
  geometry; `Btree.RemoveAbsentZero` and `Btree.RemoveAbsentOverrun` are concrete runs.
- A multipart message announced with length 0 is sent twice (`TF_Send_Multipart` and `TF_Multipart_Close`,
  tf_demo/TinyFrame.c:955-966, 1019-1055): the first already sends the whole frame, the second flushes the same buffer
  again. `TinyFrames.TinyFrame.SendMultipart` and `TinyFrames.ExchangeParts` prove that this happens exactly for length 0.
- When memory runs out in the middle of a radix tree insertion, the nodes made so far stay as a leaf without a value
  (struct_data/ngx_radix_tree/ngx_radix_tree.c:144-170), and deleting that prefix, which was never stored, succeeds
  (lines 196-234). `RadixTrees.Tree.Insert` says exactly which nodes stay, `RadixTrees.Tree.Delete` exactly when a
  deletion succeeds, `RadixTrees.DeleteUnstored` is a run.
- Deleting with mask 0 from a radix tree that is only its root follows the root's null parent
  (struct_data/ngx_radix_tree/ngx_radix_tree.c:206-212); `RadixTrees.Tree.Delete` says that it happens exactly then.
- The length of each turn of `TF_SendFrame_Chunk` is cast to the type of a payload's length (tf_demo/TinyFrame.c:910), so
  a turn too long for it loses bytes. `TinyFrames.TinyFrame.UncutIs` gives the exact condition; it holds for every part
  that a payload's length can count, and for every buffer shorter than that (`TinyFrames.TinyFrame.ShortUncut`).
- A full root of the file database needs two blocks (sdb_test/filedb.c:543-545). When the file runs out after the first,
  that block stays in use and is counted, but the tree never leads to it again. `FileDb.Db.Insert` says that this
  happens exactly under `Leaks`; `FileDrop.ValidIsChecked` that the checker does not notice.
- The file database compares integer keys by a difference returned as an `int` (`cmp_int32` and `cmp_int64`,
  sdb_test/filedb.c:97-103), so keys far apart compare the wrong way round, and 64-bit keys a multiple of 2^32 apart
  compare as equal, so that one is refused as a repeat of the other (`FileDb.RefusedRepeat`). `FileKeys.OrderedRange`
  says which ranges of keys are in order, `FileKeys.Int32Agrees` and `FileKeys.Int64Agrees` which pairs of keys,
  `FileKeys.Int64Equal` which 64-bit keys are confused; `FileDb.Db.InsertKey` and its companions say what the database
  is for keys that are less than 2^31 apart modulo 2^32.

## Left out

- FileDb.Db.NodeCreate: reads and writes that fail for other reasons than the end of the file.
- FileDb.Db.Checker: a file with missing blocks.
- FileDb.Db.InsertKey: integer keys 2^31 or more apart modulo 2^32, whose comparison is no order.
- Opening and closing the file database.
- Btree.Btree.Insert: keys already present, which the program excludes by `BUG_ON`, and the value null, which it refuses.
- Btree.Btree.Absorb: the two trees have separate memories, and trees with a common key are excluded as by the program.
- B+tree visitors, the typed wrappers and 32-bit words: no further property there.
- Rbtree.Tree.Insert: the callback that inserts is one of the two the repository has.
- TinyFrames.TinyFrame.Tick: the countdown of the listeners for ids; the listener tables are one list of handled
  messages, `slot` stands for a free entry, and callbacks that send or parse are left out.
- TinyFrame with no checksum, with CRC tables, and with a real mutex.
- Radix tree preallocation, and 128-bit keys, which the same logic treats byte by byte.
- Queues.Queue.Remove: the debug build, which also clears the node's own pointers.
- tinyframe/TinyFrame.c and nginx_module/ngxlib/ngx_rbtree.c, which are copies of the files modelled.
- The hash table, pools, arrays, payload readers and all programs around system interfaces and external libraries.
