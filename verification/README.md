# EtcPal core, modelled and proved

EtcPal is a C library that hides operating systems and networks behind one interface. This project
models the part of it that is an algorithm or a protocol of its own, and proves what that part is
for. `dafny verify dfyconfig.toml` checks the whole project.

| files | what they model |
|---|---|
| `RbContents`, `RbShape`, `RbPath` | what a tree holds, as a sorted sequence; heap nodes, the shapes that describe them, and a hole moving up and down a tree |
| `RbRotate`, `RbInsert`, `RbRemove` | the rotations and the single-pass, top-down insertion and removal loops |
| `RbWalk`, `RbTree`, `RbTraversal`, `RbRuns` | the bound on the height, the tree and its iterators as classes, whole traversals, whole runs of insertions and removals |
| `RbClear`, `RbTest` | the destructive clear and the validator |
| `AcnBytes`, `AcnPdu`, `AcnRlp`, `AcnHeader` | the packer and the parser of Root Layer PDU blocks (ANSI E1.17, ACN Architecture, sections 2.4 and 2.6) |
| `QueueRing`, `QueueProtocol`, `QueueReset` | the circular buffer of a queue, the queue as interleaved steps of any number of threads, and exactly when a reset can end |
| `MemPool` | the fixed-size memory pool |
| `HandleManager` | the integer handles that wrap around |
| `Modules` | reference-counted initialisation with rollback |
| `Inet` | netmasks and network portions |
| `Options`, `Arithmetic` | a value that may be absent; division with remainder |

## How it is modelled

**Red-black tree.** Nodes are heap objects whose colour, links and value are rewritten in place. A
`Tree` is a snapshot of a subtree, a `Ctx` the snapshot of everything around it, listed from a hole
up to the root; `Rep` and `RepCtx` say that the heap looks like them. The loops keep a `Ctx` (the
search path) and a `Tree` (what is left to search) and carry their invariants about the two:

- *Insertion.* `p` and `dir` always describe the parent of the hole. After a rotation `g` and `t` are
  stale for a step or two; `RbInsert.Helpers` says what they still mean: they are right whenever the
  colours allow another red violation. So at each rotation `t`, `g`, `p` and `q` really are a chain
  of parents, and the loop ends because `Remaining` decreases, also across a double rotation.
- *Removal.* `RedAhead` says that the current node or the next one on the way is red, or that the
  search is still at a root without red children. `Seeking` says where the value to be removed is:
  still to come, at the current node, or at the nearest ancestor left behind on the way to its
  predecessor.

Each loop also counts its rounds: at most the height of the tree for a search or a removal, and twice the
height plus one for an insertion, where a double rotation takes one round more. The height is at most
twice the logarithm of the number of values (`RbWalk.HeightIsLog`).

The comparison callback is a function that orders values totally (`TotalOrder`); values that compare
as 0 need not be equal. What the tree holds is the sequence `Contents()`, strictly ascending; `With`
and `Without` describe insertion and removal on such sequences.

**ACN.** The packer writes into an array and the parser moves offsets through a byte sequence.
`Encode` and `Decode` describe a whole block; the round trip holds if and only if the block is
`Readable`, a condition on lengths alone. What the bytes themselves are is said once more without
these functions, with every flag and weight written out: `Wire` and `WireBlock` for the packer,
`GoodBytes` and `InBytes` for the parser, `Outcomes` for the header parser. Two facts about the code
follow:

- A PDU whose vector does not mandate the L flag and with 4094 or 4095 bytes behind its length field
  gets a 12-bit length of 4096 or 4097, which wraps to 0 or 1 (`FitsExactly`, `WrappedLength`):
  `RLP_EXTENDED_LENGTH` does not count the length field itself. The macro also lacks parentheses
  around `data_len`, so that the conditional argument at `src/etcpal/acn_rlp.c:385` absorbs the rest
  of the sum; both readings give the same answer, because without data at most 20 bytes remain.
- A block ending in a PDU that repeats the previous one is packed into two or three bytes which the
  parser refuses, as it asks for a byte behind the length field (`RepeatedPdu`).

**Queue.** The critical sections are methods of a class over an array. The protocol around them is a
step system: every thread is in one phase of a send, receive, query or reset, semaphores are
counters, and a wait is enabled when the counter is positive. The theorems hold for every
interleaving of any number of threads. For a reset the exact condition is that no receiver has taken
`spots_filled` without having the lock:

- A running reset can still end if and only if that holds (`ResetEndsIff`). One receiver that takes
  `spots_filled` meanwhile blocks it for good (`ReceiverBlocks`, `ResetStuckForever`), and a short run
  gets there (`ResetCanGetStuck`).
- In every interleaving without such a step, one of the reset's own steps or the announcement of a
  sender is always possible (`ResetNeverBlocked`), and these run out: each takes one off the work that
  is left and nothing adds to it (`ResetWorks`). In any case a reset takes at most 2 * size + 1 steps of
  its own (`ResetIsShort`).
- Whenever a reset ends it has dropped exactly the contents and left the empty state (`ResetEmpties`).

Conversely nothing waits longer than it has to: `EnabledExactly` says for every step when it can be taken,
and from a queue at rest every push into free room and every pop of an element runs to its end
(`PushCompletes`, `PopCompletes`).

**Memory pool, handles, modules, netmasks.** Each has a small state on values, a class or method with
the loops of the C code that is proved against it, and lemmas about all runs. Pointers into the pool
are offsets; `uint32_t` and `uint8_t` in `Inet` are sequences of bits of fixed length.

## Where the code departs from its documentation or its intent

- `etcpal_rbtree_insert_node` counts up even when it answers that the value exists. The count is right
  afterwards if and only if no equal value was stored (`InsertNode`); inserting two equal nodes into an
  empty tree gives size 2 with one value (`CountsTwice`). `etcpal_rbtree_insert` searches first.
- `etcpal_rbtree_test` compares a node with its children only and so accepts trees that are not search
  trees (`AcceptsUnsorted`). A tree that it accepts is one if and only if every node also lies on the
  right side of the far ends of its children's inner spines (`SortedExactly`, `ValidExactly`).
- `etcpal_ip_mask_length` is documented as the number of set bits. It stops at the first clear bit, so
  it is that number if and only if the mask is contiguous (`LengthIsOnes`, `LengthIsNotOnes`).
- `acn_parse_root_layer_header` takes the length of the buffer but checks only that the length field is
  followed by something. It stays inside the buffer if and only if that is not `ReadsBeyond`; 23 bytes
  are always enough (`LongEnough`).
- The two ACN facts and the blocked reset described above.

## Model

| member | source | states |
|---|---|---|
| RbContents.RankSorted | src/etcpal/rbtree.c:175-202 | in an ascending sequence the rank of a value separates what is below it from what is above, with at most one equal value between |
| RbContents.UpperRankSorted | src/etcpal/rbtree.c:847-856 | in an ascending sequence the upper rank separates exactly the values above v, one behind the rank if an equal value is there |
| RbContents.WithSorted | src/etcpal/rbtree.c:238-251 | inserting keeps the order and adds exactly the one value |
| RbContents.WithoutSorted | src/etcpal/rbtree.c:375-390 | removing keeps the order and takes out exactly the stored value that compares equal |
| RbContents.WithoutWith | src/etcpal/rbtree.c:375-390 | removing what was just inserted gives the old contents |
| RbRotate.Rotate | src/etcpal/rbtree.c:97-108 | relinks two nodes in place into the rotated shape: the raised child black, the lowered node red |
| RbRotate.Rotate2 | src/etcpal/rbtree.c:110-117 | the same for the double rotation |
| RbRotate.RotatedKeeps | src/etcpal/rbtree.c:97-108 | a rotation keeps the values in order and the nodes |
| RbRotate.Rotated2Keeps | src/etcpal/rbtree.c:110-117 | so does a double rotation |
| RbInsert.FlippedKeeps | src/etcpal/rbtree.c:327-333 | a colour flip keeps black heights, values and nodes, and both children end up without red neighbours |
| RbInsert.RepairedWhole | src/etcpal/rbtree.c:335-343 | a rotation at the grandparent cures a red node under a red parent: the whole tree obeys all rules again |
| RbInsert.RotationReady | src/etcpal/rbtree.c:335-343 | whenever a red violation arises, p, g and t are the parent, grandparent and great-grandparent of q and last is the side of p under g, however stale g and t were before |
| RbInsert.Repair | src/etcpal/rbtree.c:338-342 | the code of the rotation case, dir2 included, hangs the repaired subtree where the grandparent was |
| RbInsert.Visit | src/etcpal/rbtree.c:319-343 | one round of the loop body, from the null link or colour flip to the rotation |
| RbInsert.Continues | src/etcpal/rbtree.c:346-360 | after a visit that does not end the loop, moving the helpers down restores the whole invariant and the measure decreases |
| RbInsert.Stops | src/etcpal/rbtree.c:346-350 | a visit that ends the loop leaves a red-black tree of exactly the old values and the new one, and one was inserted exactly when none was equal |
| RbInsert.Round | src/etcpal/rbtree.c:317-361 | one round of the loop on the heap: either the finished insertion, or the invariant one step further down with a smaller measure |
| RbInsert.InsertLoop | src/etcpal/rbtree.c:306-364 | the loop ends after at most 2 * height + 1 rounds, inserts iff nothing equal is stored, and keeps red-black rules, order, values and nodes |
| RbInsert.Insert | src/etcpal/rbtree.c:294-373 | valid tree in, valid tree with a black root out, also from the empty tree |
| RbRemove.SeekDown | src/etcpal/rbtree.c:446-452 | a step down keeps track of the value: once found, the search goes on to its predecessor |
| RbRemove.SiblingExists | src/etcpal/rbtree.c:463-473 | a black node without red child or red neighbourhood has a black sibling; its parent is red or the root |
| RbRemove.PushedWhole | src/etcpal/rbtree.c:454-488 | every case of the push keeps a red-black tree and leaves a red node at q or next on the way |
| RbRemove.PushedSeeking | src/etcpal/rbtree.c:454-488 | no case of the push loses track of the value |
| RbRemove.TurnUp | src/etcpal/rbtree.c:457-460 | rotating q's red child above it, with the new parent returned as p |
| RbRemove.Pale | src/etcpal/rbtree.c:466-472 | the colour flip of parent, sibling and node |
| RbRemove.PullUp | src/etcpal/rbtree.c:473-485 | the single or double rotation at p and the recolouring after it; g is never null there |
| RbRemove.Push | src/etcpal/rbtree.c:454-488 | the code takes exactly the case the colours call for |
| RbRemove.EndsAtLeaf | src/etcpal/rbtree.c:441-441 | the loop ends at a node without children that can be cut off without changing a black height |
| RbRemove.Unlink | src/etcpal/rbtree.c:491-503 | exchanging the values and unlinking q leaves the remaining tree, and q holds the removed value and no links |
| RbRemove.RemainingValid | src/etcpal/rbtree.c:491-503 | what remains is a red-black tree with exactly q's node missing |
| RbRemove.RemainingContents | src/etcpal/rbtree.c:491-503 | what remains holds exactly the other values, in order |
| RbRemove.Round | src/etcpal/rbtree.c:441-489 | one round of the loop: the step down and the push keep the invariant, and what is left to search gets lower |
| RbRemove.RemoveLoop | src/etcpal/rbtree.c:430-506 | the loop ends after at most as many rounds as the tree is high and removes exactly the value, through exactly one node |
| RbRemove.Remove | src/etcpal/rbtree.c:418-514 | valid tree in, valid tree out, also when it becomes empty |
| RbTree.RbTree.constructor | src/etcpal/rbtree.c:158-172 | an empty valid tree |
| RbTree.RbTree.InsertNode | src/etcpal/rbtree.c:294-373 | Exists exactly when an equal value is stored, and then the contents stay; the count goes up in both cases, so that it is right afterwards if and only if no equal value was stored |
| RbTree.RbTree.Find | src/etcpal/rbtree.c:214-236 | returns the stored value that compares equal, or nothing if there is none, after at most as many comparisons as the tree is high |
| RbTree.RbTree.Insert | src/etcpal/rbtree.c:255-275 | Ok, Exists or NoMem exactly when due; contents grow by exactly the value, and the size by one exactly then, whatever it was before; exactly one new node joins then, and no node leaves; at most 3 * height + 1 rounds |
| RbTree.RbTree.RemoveWithCb | src/etcpal/rbtree.c:418-514 | NotFound changes nothing; otherwise the tree loses exactly the value and one node, which the callback gets unlinked and with the removed value, and the size goes down by one; at most 2 * height rounds |
| RbTree.RbTree.ClearWithCb | src/etcpal/rbtree.c:552-584 | the callback gets every node with its value, in ascending order, and the tree is empty |
| RbTree.CountsTwice | src/etcpal/rbtree.c:345-369 | two equal nodes inserted into an empty tree leave one value and a size of 2 |
| RbTree.FoundAt | src/etcpal/rbtree.c:175-202 | where the binary search stops decides membership and rank of the value searched for |
| RbTree.RbIter.constructor | src/etcpal/rbtree.c:665-674 | an iterator without a tree |
| RbTree.RbIter.BinarySearch | src/etcpal/rbtree.c:175-202 | ends at an equal value or where the next link is null, with the path on the stack; everything before the remaining subtree is smaller, everything after it larger; at most as many comparisons as the tree is high |
| RbTree.RbIter.Start | src/etcpal/rbtree.c:678-703 | goes to the first or last value; the stack holds exactly the proper ancestors of the node |
| RbTree.RbIter.MoveDown | src/etcpal/rbtree.c:711-721 | arrives at the neighbour below |
| RbTree.RbIter.MoveUp | src/etcpal/rbtree.c:722-736 | arrives at the neighbour above, or at null exactly at the end |
| RbTree.RbIter.Move | src/etcpal/rbtree.c:706-738 | one position up or down, or null with an empty stack at the end; the stack stays the chain of proper ancestors |
| RbTree.RbIter.First | src/etcpal/rbtree.c:750-756 | the least value, or nothing for an empty tree |
| RbTree.RbIter.Last | src/etcpal/rbtree.c:768-774 | the greatest value, or nothing |
| RbTree.RbIter.Next | src/etcpal/rbtree.c:785-791 | the next position and its value |
| RbTree.RbIter.Prev | src/etcpal/rbtree.c:802-808 | the previous position and its value |
| RbTree.RbIter.LowerBound | src/etcpal/rbtree.c:820-845 | stands at the least value not below the argument; nothing if there is none |
| RbTree.RbIter.UpperBound | src/etcpal/rbtree.c:857-882 | stands at the least value above the argument; nothing if there is none |
| RbRuns.AppliedKeeps | src/etcpal/rbtree.c:238-251 | an operation keeps the order and changes membership for equal values only |
| RbRuns.RunHolds | src/etcpal/rbtree.c:238-390 | after any run of operations the contents are in order and hold exactly what was inserted and not removed since |
| RbRuns.Apply | src/etcpal/rbtree.c:255-514 | an insertion or removal changes contents, answer and nodes of the tree as specified, so that another operation can follow |
| RbRuns.Perform | include/etcpal/rbtree.h:87-111 | any run of insertions and removals on a new tree gives the specified answers and contents, with the right size |
| RbRuns.PerformAndClear | include/etcpal/rbtree.h:113-118 | clearing after any run passes on exactly what it left, in ascending order |
| RbRuns.TwoInOneOut | include/etcpal/rbtree.h:89-115 | two values inserted and one removed leave the other |
| RbTraversal.Ascending | tests/unit/live/test_rbtree.c:340-359 | first and then next until null gives every value once, in ascending order |
| RbTraversal.Descending | tests/unit/live/test_rbtree.c:362-379 | last and then prev until null gives them in descending order |
| RbTraversal.AscendingFrom | src/etcpal/rbtree.c:810-845 | lower bound and then next until null gives exactly the values not below the argument |
| RbTraversal.AscendingAbove | src/etcpal/rbtree.c:847-882 | upper bound and then next until null gives exactly the values above the argument |
| RbTraversal.NextPrev | src/etcpal/rbtree.c:776-808 | prev takes back next: same node, same stack |
| RbTraversal.PrevNext | src/etcpal/rbtree.c:776-808 | next takes back prev: same node, same stack |
| RbWalk.PlaceIsUnique | src/etcpal/rbtree.c:706-738 | the position of an iterator determines its node and its stack |
| RbWalk.HeightBound | tests/unit/live/test_rbtree.c:387-409 | a red-black tree of height h has at least 2^ceil(h/2) - 1 nodes |
| RbWalk.HeightIsLog | src/etcpal/rbtree.c:207-208 | the height of a red-black tree is at most twice the logarithm of the number of its values |
| RbWalk.FitsThePath | include/etcpal/rbtree.h:125-128 | with fewer than 2^32 values the 64 entries of the stack are enough |
| RbClear.ClearLoop | src/etcpal/rbtree.c:557-578 | ends and calls back for each node, in order, whatever the callback does to the nodes it got |
| RbClear.ItemsValues | src/etcpal/rbtree.c:537-551 | the calls come in ascending order of the values |
| RbClear.ItemsNodes | src/etcpal/rbtree.c:537-551 | each node of the tree is passed exactly once, and no other |
| RbClear.LiftedKeeps | src/etcpal/rbtree.c:570-576 | rotating a left link away keeps nodes and order |
| RbTest.Test | src/etcpal/rbtree.c:612-652 | 0 exactly when some node breaks a rule about its children, otherwise one more than the black height |
| RbTest.EveryPath | src/etcpal/rbtree.c:607-610 | in a tree that passes, every path to a null link has that many black nodes |
| RbTest.UnequalPathsFail | src/etcpal/rbtree.c:607-610 | two paths with different numbers of black nodes give 0 |
| RbTest.ValidPasses | src/etcpal/rbtree.c:612-652 | every red-black search tree passes |
| RbTest.PassesRb | src/etcpal/rbtree.c:612-652 | whatever passes obeys the red-black rules |
| RbTest.AcceptsUnsorted | src/etcpal/rbtree.c:634-639 | four nodes in memory that the validator accepts with result 3 although their values are not in order |
| RbTest.SortedAround | src/etcpal/rbtree.c:634-639 | a value between two ordered parts keeps the order if and only if it does so with its two neighbours |
| RbTest.SortedExactly | src/etcpal/rbtree.c:634-639 | a tree that passes is a search tree if and only if the comparisons with the far ends of the inner spines hold too |
| RbTest.ValidExactly | src/etcpal/rbtree.c:599-611 | result not 0 and those comparisons together hold exactly for the red-black search trees |
| AcnBytes.U32RoundTrip | src/etcpal/pack.c:174-202 | unpacking a packed 32-bit number gives it back |
| AcnBytes.FlagsRoundTrip | include/etcpal/acn_pdu.h:57-123 | the flags survive next to any four length bits, and the other way round |
| AcnBytes.FieldRoundTrip | include/etcpal/acn_pdu.h:84-158 | the flags-and-length field gives back the flags, and the length modulo 2^12 or 2^20 |
| AcnPdu.AcnPdu.constructor | include/etcpal/acn_pdu.h:170-175 | the state before the first PDU of a block |
| AcnPdu.AcnPdu.Parse | src/etcpal/acn_pdu.c:35-107 | succeeds exactly on the acceptable bytes, sets the pointers of the segments present and of the next PDU, and changes nothing on failure; in bytes: 0x80 means a 3-byte length field, 0x40, 0x20 and 0x10 that vector, header and data are there, the length is a sum of weighted bytes |
| AcnPdu.AcnPdu.SetSegments | src/etcpal/acn_pdu.c:86-105 | the pointers to the segments that are present, in order, and to the next PDU |
| AcnPdu.BytesMean | include/etcpal/acn_pdu.h:57-123 | which bytes are acceptable and what they set, with all weights written out |
| AcnPdu.ParsedSafe | src/etcpal/acn_pdu.c:35-107 | after a success all segments lie inside the buffer and the position has moved on by at least two |
| AcnPdu.RunSafe | src/etcpal/acn_pdu.c:35-107 | over any bytes, every state of the parse loop is safe and it ends after at most half as many successes as there are bytes |
| AcnRlp.ParseRootLayerPdu | src/etcpal/acn_rlp.c:223-242 | reads vector, CID and data through the parser's pointers, all inside the buffer: the vector most significant byte first, the 16 bytes of the CID, the data |
| AcnRlp.ParseBlock | src/etcpal/acn_rlp.c:202-215 | the documented loop ends and returns all PDUs of the block |
| AcnRlp.EvaluateInheritance | src/etcpal/acn_rlp.c:422-482 | a segment is inherited exactly when it equals the previous PDU's; the flags byte is the sum of 0x40, 0x20 and 0x10 for what is not; the previous PDU is brought up to date |
| AcnRlp.PackLength | include/etcpal/acn_pdu.h:137-158 | writes flags and length, the length losing the bits that do not fit |
| AcnRlp.PackPdu | src/etcpal/acn_rlp.c:382-417 | writes exactly the bytes of one PDU and touches nothing else |
| AcnRlp.ComputeBufSize | src/etcpal/acn_rlp.c:304-317 | the size of the block if nothing is inherited |
| AcnRlp.SizeOfOne | src/etcpal/acn_rlp.c:304-317 | a PDU adds its data and 23 bytes if its vector is 5, 9, 10 or 11 or more than 4075 bytes of data follow, else 22 |
| AcnRlp.PackBlock | src/etcpal/acn_rlp.c:370-420 | packs nothing into a buffer below the computed size, otherwise the whole block in the format on the wire, within that size, and leaves the bytes behind it alone; the first vector is the big-endian number behind the length field, and the CID the 16 bytes behind that |
| AcnRlp.PackAll | src/etcpal/acn_rlp.c:376-419 | the loop over the PDUs writes their bytes one behind the other |
| AcnRlp.WireForm | src/etcpal/acn_rlp.c:382-417 | the bytes of one PDU: 0x80 exactly for vectors 5, 9, 10 and 11 and long PDUs, the other flags for what is sent, the length modulo 2^12 or 2^20, then vector, CID and data |
| AcnRlp.EncodedWire | src/etcpal/acn_rlp.c:370-420 | a packed block consists of such PDUs, each sending exactly what differs from the one before |
| AcnRlp.EncodedSize | src/etcpal/acn_rlp.c:357-369 | the packed size never exceeds the computed one, and equals it when no segment is shared |
| AcnRlp.ReadsOne | src/etcpal/acn_rlp.c:223-242 | one PDU that fits is read back, whatever it inherits, and the parser stands at what follows |
| AcnRlp.LosesOne | src/etcpal/acn_rlp.c:29-30 | one that does not fit is refused or read with other data |
| AcnRlp.BlockRoundTrip | src/etcpal/acn_rlp.c:370-420 | parsing exactly the packed bytes gives back the block if and only if every length fits and the last PDU has a byte behind its length field |
| AcnRlp.FitsExactly | src/etcpal/acn_rlp.c:29-30 | a length fits unless 4094 or 4095 bytes follow a 2-byte field or 2^20 - 3 or more follow a 3-byte field |
| AcnRlp.WrappedLength | src/etcpal/acn_rlp.c:393-399 | a first PDU with 4074 or 4075 bytes of data and no mandated L flag cannot be read back |
| AcnRlp.RepeatedPdu | src/etcpal/acn_pdu.c:66-71 | of a block of two equal PDUs only the first is read back |
| AcnHeader.PackHeader | src/etcpal/acn_rlp.c:330-355 | writes the header with which a PDU that inherits nothing starts, 23 or 22 bytes, or nothing into fewer than 23 |
| AcnHeader.ParseHeader | src/etcpal/acn_rlp.c:124-186 | for every buffer: it reads behind the buffer exactly when that is empty, or is not refused by flags and length and ends inside the header; otherwise it reads the header, and refuses a missing L flag where the vector mandates it; in bytes and numbers |
| AcnHeader.OutcomeInBytes | src/etcpal/acn_rlp.c:124-186 | the outcome for every buffer, decided by its bytes |
| AcnHeader.MissingLRefused | src/etcpal/acn_rlp.c:157-162 | vector 5, 9, 10 or 11 behind a first byte below 0x80 is refused |
| AcnHeader.LongEnough | src/etcpal/acn_rlp.c:124-186 | no buffer of 23 bytes or more is read beyond |
| AcnHeader.HeaderRoundTrip | src/etcpal/acn_rlp.c:330-355 | a packed header is read back if and only if the length of the PDU fits its field |
| AcnHeader.InheritedRoundTrip | src/etcpal/acn_rlp.c:124-186 | the header of any PDU of a block, read with the one before it, gives vector, CID and data if and only if its length fits and something follows the length field |
| QueueRing.Wraps | src/etcpal/queue.c:93-94 | within a lap the modulus is one subtraction at most |
| QueueRing.StoredKeeps | src/etcpal/queue.c:91-95 | storing into a queue that is not full appends to what it holds |
| QueueRing.TakenKeeps | src/etcpal/queue.c:143-148 | taking from a queue that is not empty removes the oldest element |
| QueueRing.Buffer.constructor | src/etcpal/queue.c:217-239 | an empty buffer with one slot more than the queue has room |
| QueueRing.Buffer.Push | src/etcpal/queue.c:91-95 | the critical section of a push |
| QueueRing.Buffer.Pop | src/etcpal/queue.c:143-148 | the critical section of a pop: the oldest element |
| QueueRing.Buffer.IsEmpty | src/etcpal/queue.c:371-381 | true exactly when nothing lies from tail to head |
| QueueRing.Buffer.IsFull | src/etcpal/queue.c:397-407 | true exactly when as many elements lie there as the queue may hold |
| QueueRing.Buffer.SlotsUsed | src/etcpal/queue.c:423-434 | how many lie there |
| QueueRing.Buffer.SlotsAvailable | src/etcpal/queue.c:449-459 | how many more fit |
| QueueRing.Buffer.Reset | src/etcpal/queue.c:362-365 | the end of a reset |
| QueueProtocol.CreatedInv | src/etcpal/queue.c:195-240 | a new queue obeys the invariant |
| QueueProtocol.NothingLost | src/etcpal/queue.c:89-102 | no element is overwritten, no pop finds the queue empty, no post exceeds a semaphore's maximum |
| QueueProtocol.StepKeeps | src/etcpal/queue.c:82-157 | every step of every thread keeps the counts and the history |
| QueueProtocol.RunCounts | src/etcpal/queue.c:82-157 | in every interleaving, also while a reset is under way, size and semaphores count exactly the elements and slots they stand for, and the lock is taken exactly when one thread holds it |
| QueueProtocol.RunFifo | src/etcpal/queue.c:82-157 | in every interleaving what has left the queue, followed by what lies from tail to head, is what was sent, in order |
| QueueProtocol.RunReceives | src/etcpal/queue.c:134-157 | without a reset, what was received is a prefix of what was sent |
| QueueProtocol.TakesOldest | src/etcpal/queue.c:143-148 | a pop delivers the oldest element that has not left yet |
| QueueProtocol.QueryReports | src/etcpal/queue.c:371-459 | in every interleaving a query reads the number of elements sent that have not left: 0 exactly when all have, the maximum exactly when that many have not |
| QueueProtocol.SomeoneAdvances | src/etcpal/queue.c:82-157 | while no reset runs and some thread is in the middle of a call, some such thread can go on: no deadlock |
| QueueProtocol.EnabledExactly | src/etcpal/queue.c:82-157 | a step that a thread has come to can be taken exactly when: for a pop an element is announced and not promised, for a push a slot is free and not reserved, for the lock nobody holds it, and always for the rest |
| QueueProtocol.MayBegin | src/etcpal/queue.c:82-157 | so an idle thread may begin, while no reset runs, exactly then |
| QueueProtocol.PopCompletes | src/etcpal/queue.c:134-157 | with all threads idle and something in the queue a pop runs to its end in five steps and gets the oldest element |
| QueueProtocol.PushCompletes | src/etcpal/queue.c:82-105 | with all threads idle and room in the queue a push runs to its end and appends its element |
| QueueReset.ResetEmpties | src/etcpal/queue.c:346-369 | a reset that ends has dropped exactly the contents and left the empty state |
| QueueReset.OneHolder | src/etcpal/queue.c:57-72 | only one thread is in a phase in which it holds the lock |
| QueueReset.ResetStep | src/etcpal/queue.c:353-360 | while a thread resets, each of its steps takes one off its work, each announcement one off those outstanding, and nothing adds to either |
| QueueReset.ResetWorks | src/etcpal/queue.c:353-360 | over every run work done and work left add up |
| QueueReset.ResetIsShort | src/etcpal/queue.c:353-360 | in every interleaving a reset takes at most 2 * size + 1 steps of its own |
| QueueReset.ResetAdvances | src/etcpal/queue.c:353-360 | without a receiver between its wait and its lock, the reset can go on or a sender can announce its element |
| QueueReset.ResetNeverBlocked | src/etcpal/queue.c:353-360 | so it is all along any run in which no receiver takes spots_filled, and such steps run out |
| QueueReset.ResetEndsIff | src/etcpal/queue.c:346-369 | a running reset can still end if and only if no receiver is between its wait and its lock |
| QueueReset.ReceiverBlocks | src/etcpal/queue.c:353-360 | a receiver that takes spots_filled meanwhile makes the end impossible |
| QueueReset.ResetStuck | src/etcpal/queue.c:353-360 | with such a receiver no step ends the reset or lets the receiver go on |
| QueueReset.ResetStuckForever | src/etcpal/queue.c:353-360 | and so it stays over every run |
| QueueReset.ResetCanGetStuck | src/etcpal/queue.c:353-360 | a run of seven steps from a new queue leads there |
| MemPool.Desc.constructor | include/etcpal/mempool.h:139-146 | a pool definition: no freelist, nothing in use |
| MemPool.Desc.Init | src/etcpal/mempool.c:33-64 | Invalid for a pool of size 0, otherwise all elements free, element i at place i of the freelist |
| MemPool.Desc.Alloc | src/etcpal/mempool.c:67-96 | nothing exactly when all elements are in use; otherwise the first of the freelist, an element inside the pool that shares no byte with any in use |
| MemPool.Desc.Free | src/etcpal/mempool.c:98-125 | an address before the pool or not at an element is ignored; otherwise the element is next to be allocated |
| MemPool.AllocatedOk | src/etcpal/mempool.c:80-88 | allocation keeps the freelist without repetition and apart from the elements in use |
| MemPool.FreedOk | src/etcpal/mempool.c:114-118 | so does freeing an element in use |
| MemPool.Links | src/etcpal/mempool.c:115-117 | putting a link structure in front keeps the list without a cycle |
| MemPool.AllocFree | src/etcpal/mempool.c:67-125 | freeing undoes allocating and allocating undoes freeing |
| MemPool.HandsOutInOrder | src/etcpal/mempool.c:33-96 | a new pool hands out element i as the i-th, so at offset i times the element size, and none after the last |
| MemPool.Conserved | src/etcpal/mempool.c:51-118 | free slots and elements in use make up the pool |
| MemPool.RunKeeps | src/etcpal/mempool.c:33-125 | all of this over every run of init, alloc and frees of elements in use |
| MemPool.BytesApart | src/etcpal/mempool.c:86-86 | different elements share no byte and all lie in the pool |
| MemPool.IndexRecovered | src/etcpal/mempool.c:114-114 | free computes the index that alloc used |
| HandleManager.FirstFreeMeans | src/etcpal/handle_manager.c:66-80 | the search finds the first free handle in cyclic order, and fails exactly when all are in use |
| HandleManager.FirstFreeIsNext | src/etcpal/handle_manager.c:66-80 | every handle passed over, up to the highest and from 0 on, is in use |
| HandleManager.SkippingIsSound | src/etcpal/handle_manager.c:78-79 | not checking before the first wrap-around makes no difference |
| HandleManager.StepKeeps | src/etcpal/handle_manager.c:58-88 | no handle is given while in use; -1 exactly when all are, with the last handle unchanged |
| HandleManager.RunKeeps | src/etcpal/handle_manager.c:58-88 | over every run of gets and releases handles lie in range, and those before the wrap-around are 0, 1, 2, .. |
| HandleManager.RunFromStart | src/etcpal/handle_manager.c:35-88 | so it is over every run of a new manager |
| HandleManager.IntHandleManager.constructor | src/etcpal/handle_manager.c:35-48 | a manager that has given no handle |
| HandleManager.IntHandleManager.GetNext | src/etcpal/handle_manager.c:58-88 | returns a handle not in use and at most max_value (INT_MAX if that is negative), the first after the last one; -1 exactly when all of those are in use; after at most max + 1 probes |
| HandleManager.IntHandleManager.Search | src/etcpal/handle_manager.c:63-80 | the do-while loop: how many handles it probes, and what it finds |
| Modules.InitKeeps | src/etcpal/common.c:112-180 | whatever the modules answer, all selected counts go up by one or none changes, and a module runs exactly when its count is positive |
| Modules.WantedBits | include/etcpal/common.h:137-140 | bits 8, 4, 1 and 2 select log, timer, socket and netint |
| Modules.InitMeans | src/etcpal/common.c:112-180 | the answer of an init and the calls it makes |
| Modules.StartUpInOrder | src/etcpal/common.c:143-161 | exactly the modules due are started, in ascending order |
| Modules.RollBackInOrder | src/etcpal/common.c:163-177 | exactly those started are stopped, in descending order |
| Modules.ShutDownInOrder | src/etcpal/common.c:193-207 | exactly the selected modules at their last reference are stopped, in descending order |
| Modules.RollBackRuns | src/etcpal/common.c:163-177 | rolling back leaves running exactly what ran before |
| Modules.DeinitKeeps | src/etcpal/common.c:193-207 | a deinit keeps counts and running modules in step |
| Modules.DeinitUndoesInit | src/etcpal/common.c:182-192 | a paired deinit restores counts and running modules |
| Modules.RunKeeps | src/etcpal/common.c:112-207 | over every sequence of calls init and deinit of a module alternate and it runs exactly when its count is positive |
| Modules.EtcPal.Initialise | src/etcpal/common.c:112-180 | Invalid and nothing changed if a log handler is set and logging neither runs nor is asked for; otherwise Ok exactly if all modules due succeed, else the error of the first that fails; counts and the order of the calls accordingly |
| Modules.EtcPal.StartModules | src/etcpal/common.c:143-161 | starts the selected modules in order, up to the first failure |
| Modules.EtcPal.StartNext | src/etcpal/common.c:146-160 | one round of that loop |
| Modules.EtcPal.UndoModules | src/etcpal/common.c:163-177 | takes back exactly that, in reverse order |
| Modules.EtcPal.IsLoggingEnabled | src/etcpal/common.c:119-128 | whether the logging module is counted |
| Modules.EtcPal.Deinitialise | src/etcpal/common.c:193-207 | counts down the selected modules and stops those that reach zero, in descending order |
| Inet.MaskLength | src/etcpal/inet.c:296-336 | the number of set bits at the front, for both types |
| Inet.MaskFromLength | src/etcpal/inet.c:351-397 | exactly the first bits set, up to the width: in the word of IPv4, byte for byte in IPv6 |
| Inet.BitsInOrder | src/etcpal/inet.c:308-330 | the bytes of an IPv6 address come in the order of significance |
| Inet.MaskInBytes | src/etcpal/inet.c:370-392 | the bytes below n / 8 are 255, those above 0 |
| Inet.ShiftHalves | src/etcpal/inet.c:303-304 | the shift by one bit halves the word as a number |
| Inet.NetworkPortionsEqual | src/etcpal/inet.c:419-445 | same valid type, and agreement wherever the mask is set |
| Inet.LengthOfMask | src/etcpal/inet.c:283-295 | the length of the mask of length n is n, up to the width |
| Inet.LengthIsOnes | src/etcpal/inet.c:283-295 | the length is the number of set bits if and only if the mask is contiguous |
| Inet.LengthIsNotOnes | src/etcpal/inet.c:283-295 | the mask of which only the last bit is set has length 0 |
| Inet.MaskOfLength | src/etcpal/inet.c:338-350 | a mask is recovered from its length exactly when it is contiguous |
| Inet.SameUnderMask | src/etcpal/inet.c:399-418 | under the mask of length n equality is agreement of the leading bits |
| Inet.ShorterMask | src/etcpal/inet.c:399-418 | agreement under a mask is agreement under every shorter one |
| Inet.SameNetworkIsEquivalence | src/etcpal/inet.c:399-418 | under any mask it is an equivalence |

## Left out

- RbTree.RbTree.Find: requires a height of at most 64, as do Insert, RemoveWithCb and the iterators; this is the fixed stack of the code, and RbWalk.FitsThePath derives it from fewer than 2^32 values.
- RbTree.RbTree.InsertNode: does not model the wrap-around of size_t in the count.
- RbTree.RbIter.Move: requires a current node; the code dereferences it without a check.
- AcnHeader.ParseHeader: says when the code reads behind the buffer, but not what happens then, and not what a failing call leaves in the output structure.
- AcnRlp.PackBlock: takes data by value, so that it does not model data that overlaps the output buffer.
- MemPool.Desc.Free: requires that an address inside the pool is an element in use, as the documentation does.
- HandleManager.IntHandleManager.GetNext: takes the handles in use as a set, so that the answers of the callback do not change during a call.
- Modules.EtcPal.Initialise: does not model the wrap-around of a count after 2^32 calls.
- QueueReset.ResetEmpties: takes the last assignments of a reset and the unlocking as one step; the lock is held throughout.
- QueueProtocol.QueryReports: takes the reading and the unlocking of a query as one step; the lock is held throughout.
- Memory management: node and pool allocation by callbacks appears as a Boolean or not at all, deallocation not at all.
- NULL arguments, assertions that log, the lock of the memory pools, timeouts of the queue except that a wait may not happen.
- The variants of the queue for interrupt handlers, the clean-up of a failed queue creation, destruction, and the narrowing of the queue size to unsigned.
- The TCP and UDP preambles of ACN packets, which are fixed byte strings.
- `etcpal_rbtree_node_cmp_ptr_cb`, which compares addresses.
- `src/etcpal/log.c`, `src/etcpal/netint.c`, `src/etcpal/uuid.c`, `src/etcpal/timer.c`, `src/etcpal/error.c`, the other functions of `src/etcpal/pack.c` and `src/etcpal/inet.c`: formatting, enumeration, hashing and small table look-ups.
- Everything below `src/os`, the C++ wrappers and the mocks: plumbing over operating systems.
