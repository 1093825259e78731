# nkfs: storage core, redundancy code and checksums in Dafny

nkfs is a small distributed object store. This project models the parts of it whose correctness is hard to see by
reading one function, and proves what they promise:

- **B-tree** (`core/btree.c`): search, single-pass insertion with splits on the way down, single-pass deletion with
  borrowing, merging and root collapse, and erasure, over a store of blocks. Every step keeps one invariant (order
  across subtrees, T-1..2T-1 keys, one depth, one parent per block, blocks owned = blocks reachable), every operation
  is the map operation it stands for, the root stays in its block, and node references balance on every path. T is any
  number >= 2; the source uses 896. One loop of deletion does something else than its comment says; deletion is modelled
  as written and as meant, and so are the runs that have deletions in them; see Findings. How many blocks an insertion
  takes, which tree it leaves, and whether its key could be taken back as written are told exactly from the tree before.
- **Erasure code** (`crt/nk8.c`): GF(2^8) with polynomial 283 (the field of section 4.2 of FIPS 197), its tables,
  matrix inversion by elimination, and splitting and assembling. Any selection of parts with k distinct ids gives the
  block back. What decides a block of n bytes is exactly min(k, n) parts with distinct ids: with fewer there is always
  another block. `gf_inverse_matrix` is not right for every invertible matrix, because its row swap has no effect; the
  exact condition is proved, and that the matrices of `nk8_assemble_block` meet it.
- **Space and objects** (`core/balloc.c`, `core/inode.c`, `core/super.c`): the bitmap allocator, the two trees of an
  inode, reading and writing by block and by page with a checksum per block, and formatting, creating, writing,
  reading and deleting objects. Every used block has exactly one owner after every operation, objects behave like
  byte arrays, a block of an object is there exactly if a byte of it was written, all trees keep the degree the device
  was formatted with, and an object's life gives back every block it took.
- **Block cache** (`core/dio.c`): clusters with pins, references, dirty flags and a 64-bit age. Every run refines a
  flat array of blocks; eviction takes the least recently used first, never a held cluster, and loses no write. A write
  through `dio_clu_map` survives exactly if the dirty flag is set before the put.
- **Hashes** (`crt/xxhash.c`, `crt/sha256.c`, `core/upages.c`): incremental XXH64, XXH32 and SHA-256 agree with the
  one-shot functions for every way of cutting the input, so the sum a server forms page by page is the one a client
  forms over its buffer. Known values of the hashes pin their constants and steps.

Code that updates things step by step is modelled by methods with loops over arrays and class fields. Where a structure
is deep (B-tree nodes, inodes, the superblock), a method takes and returns the state as a value (`Mem`, `Ino`, `Fs`) next
to a ghost value that says what it stands for (`Tree`, `Shape`, `View`), and a class (`BTree`, `Sb`) holds the two;
the allocator `Space` is always an object that is changed in place. Operations that may delete from a tree have a parameter
`asWritten` and a result `fault`: with `asWritten` they delete as core/btree.c:1152-1162 is written, without it as its
comment has it. What the source takes from outside (random
identifiers, the checksum of a block, the contents of the device) are parameters. A `NKFS_BUG_ON` that must not fire is
a precondition, so that the proofs show it never does.

## Files

| files | subject |
|---|---|
| `Balloc` | bitmap allocator, device layout |
| `Common` | a few shared definitions |
| `KeyOrder`, `KeyNames`, `BtreeShape`, `BtreeSteps`, `BtreeEdits`, `BtreeBalance`, `BtreePath` | keys; the tree invariant and the steps that keep it; what an insertion will do |
| `NodeBuf`, `Btree`, `BtreeDelete`, `BtreeDeleteKey`, `BtreeErase`, `BtreeClass`, `BtreeAsWritten` | nodes changed in place; the operations; deletion as written |
| `Field`, `Linear`, `Rank`, `Elimination`, `Vandermonde`, `Frobenius` | algebra, `gf_inverse_matrix` over any field |
| `Gf256Bits`, `Gf256`, `Gf256Direct`, `Gf256Numbers`, `Nk8Parts`, `Nk8Tables`, `Nk8`, `Nk8Assemble` | the field, its tables, the code |
| `Stripes`, `Pages`, `Xxhash`, `XxhashKnown`, `Sha256`, `Sha256Known` | buffered streams, paged buffers, hashes and known values of them |
| `DioAge`, `Dio`, `DioShrink`, `DioRun` | block cache |
| `IndexTree`, `InodeMap`, `InodeRoom`, `InodeData`, `InodePages`, `InodeLife`, `InodeFault` | an object's trees, the blocks it takes, its bytes; an allocation that faults |
| `Ownership`, `SuperState`, `SuperOps`, `Super` | all objects of a device |

## Model

| member | source | states |
|---|---|---|
| Balloc.PositionOfBlock | core/balloc.c:42-62 | the (bitmap block, byte offset, bit) of a block is in range and leads back to its number |
| Balloc.BlockOfPosition | core/balloc.c:42-62 | conversely every position in range is that of the block number computed from it |
| Balloc.GenHeader | core/super.c:195-228 | a device is accepted exactly if its size is a multiple of the block size with room left after header and bitmap; the bitmap then has a bit for every block and no block too many |
| Balloc.FirstFreeBit | core/balloc.c:139-161 | the least clear bit of a word, unless the device ends before it |
| Balloc.Space.BmClear | core/balloc.c:9-40 | no bit is set afterwards and the counter is zero |
| Balloc.Space.BlockMark | core/balloc.c:64-109 | exactly that bit changes, the counter stays the number of set bits, and blocks beyond the device are -EINVAL |
| Balloc.Space.FindSetFreeBit | core/balloc.c:116-168 | in a bitmap block before which all is taken, takes the least free block of the device, or all of that bitmap block is taken |
| Balloc.Space.BlockAlloc | core/balloc.c:170-201 | returns the least free block, and -ENOSPC exactly when every block of the device is used |
| Balloc.Space.Counted | core/balloc.c:64-109 | used_blocks is at most nr_blocks, and equal to it exactly when every block is used |
| KeyOrder.Memcmp | core/btree.c:689-694 | comparing keys byte by byte is comparing them as 128-bit numbers |
| KeyOrder.KeyRoundTrip | core/btree.c:536-549 | a 64-bit number made into a key comes back |
| KeyOrder.KeyIs | core/btree.c:536-541 | the key has the bytes of the number, the low byte first, and eight zeros |
| KeyOrder.KeyInjective | core/btree.c:536-541 | different numbers have different keys |
| BtreeShape.OneHolder | core/btree.c:1713-1773 | in a tree that keeps the invariant no key is in two blocks |
| BtreeShape.OneParent | core/btree.c:1713-1773 | and no block is a child in two places |
| BtreeSteps.SplitKeeps | core/btree.c:841-872 | splitting a full child keeps the invariant |
| BtreeSteps.MergeKeeps | core/btree.c:1336-1358 | joining two small siblings and the key between them keeps the invariant |
| BtreeSteps.RecutKeeps | core/btree.c:1283-1316 | moving a key through the parent from one sibling to the other keeps the invariant |
| BtreeEdits.GrowKeeps | core/btree.c:1064-1071 | moving the root's contents to a new block below it keeps the invariant |
| BtreeEdits.ShrinkKeeps | core/btree.c:1360-1364 | a root without keys that takes over its only child is a valid tree again |
| BtreeEdits.SplitRootKeeps | core/btree.c:1038-1080 | a split of a full root in three blocks keeps the invariant, the map and the root's block |
| BtreeEdits.LeafInsertKeeps | core/btree.c:972-983 | a new key in the gap of a leaf with room keeps the invariant and adds exactly that pair |
| BtreeEdits.SetValueKeeps | core/btree.c:956-965 | replacing a value keeps the invariant and changes exactly that pair |
| BtreeEdits.LeafDeleteKeeps | core/btree.c:1177-1187 | taking a key from a leaf that can spare it keeps the invariant and removes exactly that pair |
| BtreeEdits.ReplaceKeeps | core/btree.c:1469-1500 | a key replaced by its neighbour from a leaf, which is taken out there, leaves a valid tree |
| BtreePath.SplitProfile | core/btree.c:841-872 | what splitting the child that k goes to does to the key counts along the path of k |
| BtreePath.RootSplitProfile | core/btree.c:1038-1080 | and what the split of a full root does to them |
| BtreePath.LeftSplit | core/btree.c:985-1015 | a split leaves one block less to be split on the way down, and whether an inner block ends with T-1 keys as it was |
| BtreePath.LeftTaller | core/btree.c:1023-1086 | the split of a full root takes two of the blocks that the insertion takes |
| BtreePath.TakesAtMost | core/btree.c:1023-1086 | an insertion takes at most (levels + 2) blocks |
| NodeBuffer.NodeBuf.HasKeyAt | core/btree.c:886-911 | the binary search finds the index of a key, or there is none |
| NodeBuffer.NodeBuf.FindKeyIndex | core/btree.c:913-942 | the index of the key, or the only gap it fits in |
| NodeBuffer.NodeBuf.PutKv | core/btree.c:809-833 | shifting slots up inserts one pair and keeps the others in order |
| NodeBuffer.NodeBuf.PutChildVal | core/btree.c:782-807 | the same for child slots |
| NodeBuffer.NodeBuf.DeleteKeyIndex | core/btree.c:1164-1175 | shifting slots down removes one pair |
| NodeBuffer.NodeBuf.MoveUpperHalf | core/btree.c:841-860 | a full child keeps T-1 keys, T-1 go to the new node, the middle one to neither |
| NodeBuffer.NodeBuf.MergeFrom | core/btree.c:1246-1267 | the separator and all of the other node are appended |
| NodeBuffer.SplitNodes | core/btree.c:841-872 | parent, child and new node after a split |
| NodeBuffer.BorrowFromRight | core/btree.c:1283-1316 | with child slots shifted as intended: parent, child and right sibling after a key has moved left |
| NodeBuffer.BorrowFromLeft | core/btree.c:1283-1316 | with child slots shifted as intended: parent, child and left sibling after a key has moved right |
| NodeBuffer.BorrowRight | core/btree.c:1283-1316 | borrowing from the right is cutting the joined siblings one key further |
| NodeBuffer.BorrowLeft | core/btree.c:1283-1316 | borrowing from the left is cutting them one key earlier |
| Btree.NodeDeref | core/btree.c:156-173 | dropping the last reference drops the node from the cache and from nothing else |
| Btree.QuietMeansOneNode | core/btree.c:678-687 | between operations only the root is cached and nodes_active is 1 |
| Btree.NodeFindKey | core/btree.c:1089-1150 | the value of the key in the map, -ENOENT exactly if it is not there; tree unchanged and references balanced |
| Btree.GrowRoot | core/btree.c:1038-1080 | splits a full root with both the blocks it needs, exactly if two are free, or does nothing; map and root block stay, and no child of the root is full afterwards |
| Btree.InsertNonfull | core/btree.c:944-1018 | map[key := value]; -EEXIST exactly for a key that is kept, also when a split has just moved it up; -EIO exactly if fewer blocks are free than there are full blocks on the path below the root, otherwise exactly so many are taken; the tree it leaves is the one that the tree and the blocks in use before it say; a new key is in a leaf that can spare it |
| BtreeClass.TreeInsert | core/btree.c:1023-1086 | -EEXIST or success exactly by whether the key is there and may be replaced, unless it runs out of blocks: exactly if fewer are free than two for a full root and one for each full block below it on the path; otherwise exactly those are taken. Out of blocks is -ENOMEM exactly if the root is full and fewer than two are free, and -EIO otherwise. After inserting a new key, it can be deleted as written if and only if no inner block of the path before was full or at T-1 keys (the root only full) over one that was not full |
| BtreeDelete.BorrowOrMerge | core/btree.c:1370-1431 | with child slots shifted as intended: after borrowing or merging, the node to go to has a key to spare, the map is the same, and the blocks lost were given back |
| BtreeDelete.ChildBalance | core/btree.c:1370-1431 | the same with exactly one more reference than before, on that node |
| BtreeDeleteKey.FindEdge | core/btree.c:1189-1244 | the outermost leaf below a node is reached with a key to spare, above it nothing has changed |
| BtreeDeleteKey.FromNeighbour | core/btree.c:1469-1500 | the key is replaced by its predecessor or successor, which is then pending in its leaf |
| BtreeDeleteKey.FoundMerge | core/btree.c:1501-1537 | with child slots shifted as intended: the children around the key become one, where the search goes on lower down |
| BtreeDeleteKey.NodeDeleteKey | core/btree.c:1433-1554 | with child slots shifted as intended, for every tree and key: deletion ends with a valid tree for map - {key}, -ENOENT exactly if the key was absent, same root block, references balanced, only blocks of the tree given back and no level gained |
| BtreeAsWritten.ShiftPages | core/btree.c:1152-1162 | the loop as written, over the four page pointers: it stays in the array if and only if the node has fewer than four keys, and then leaves a null pointer |
| BtreeAsWritten.ShiftAndWrite | core/btree.c:1299-1316 | the shift and the write of the same node that follows it never both succeed |
| BtreeAsWritten.BalanceAsWritten | core/btree.c:1370-1431 | as written, balancing survives if and only if the child has a key to spare |
| BtreeAsWritten.DeleteAsWritten | core/btree.c:1433-1554 | as written, deletion does what NodeDeleteKey does if and only if every block below the root that it goes through has a key to spare; otherwise it runs into the shift of page pointers |
| BtreeAsWritten.BorrowIsNotClean | core/btree.c:1283-1316 | for every T: a root with one key over leaves of T-1 and T keys, and a key of the left leaf, is an input on which it does not |
| BtreeAsWritten.FaultAtSource | core/btree.c:1152-1162 | with the T of 896 of the source that deletion leaves the array of page pointers |
| BtreeAsWritten.NewKeyClean | core/inode.c:534-538 | a key that was just inserted can be deleted as written if and only if the inner blocks on its path have a key to spare; always, if the tree is a root and leaves |
| BtreeAsWritten.NewKeyWorn | core/inode.c:534-538 | the same by the key counts on the path: no inner block below the root has T-1 keys |
| BtreeErase.EraseNode | core/btree.c:1673-1701 | the blocks freed are exactly those of the subtree and the callbacks exactly its pairs |
| BtreeErase.EraseTree | core/btree.c:1673-1711 | every node block freed once, one callback for each pair of the map |
| BtreeClass.BTree.Create | core/btree.c:632-669 | a new tree owns one block that was free; none is made exactly if no block is free |
| BtreeClass.BTree.FindKey | core/btree.c:1123-1150 | finding leaves tree, root block and contents alone |
| BtreeClass.BTree.InsertKey | core/btree.c:1023-1086 | insertion on the object: -EEXIST or success exactly by whether the key is there and may be replaced, unless fewer blocks were free than it takes, which is exact, and so is whether that is -ENOMEM or -EIO; -EAGAIN once it is being released |
| BtreeClass.BTree.DeleteKey | core/btree.c:1556-1571 | deletion on the object, as meant or as written; as written it faults if and only if a block below the root that it goes through has no key to spare, and otherwise does the same |
| BtreeClass.BTree.Erase | core/btree.c:1703-1711 | after erasing the tree owns no block |
| BtreeClass.BTree.Release | core/btree.c:678-687 | nodes_active is 0 after the root's last reference goes |
| BtreeClass.BlocksBound | core/btree.c:1713-1773 | a tree has no more blocks below the root than its keys fill with T-1 each |
| BtreeClass.FewKeys | core/btree.c:1023-1086 | with fewer than 2T-1 keys a tree is a root only, and an insertion takes no block |
| BtreeClass.Run | core/btree.c:1023-1086 | any run of inserts and deletes is the same run on a map up to the first insertion that runs out of blocks or, as written, the first deletion that faults; with the trees between the operations, none of which was of that kind before; there is no such insertion if the blocks of others and those that so many keys can fill leave room; what others own never changes, and the root stays where it is |
| Gf256.GfIsField | crt/nk8.c:54-123 | bytes with XOR and this product are a field |
| Gf256Numbers.ProductRemains | crt/nk8.c:54-74 | on numbers: the product is what remains of the carry-less product of the two when it is divided by 283 |
| Gf256Numbers.OnlyRemainder | crt/nk8.c:54-74 | and only one number below 256 is that |
| Gf256.Fermat | crt/nk8.c:76-92 | a^256 = a, so a^254 inverts every byte but zero |
| Gf256Direct.MultDirect | crt/nk8.c:54-74 | the shift-and-reduce loops compute the field's product |
| Nk8Tables.DivBrute | crt/nk8.c:76-92 | the search through the product table finds the only quotient |
| Nk8Tables.Tables.FillMult | crt/nk8.c:94-110 | the table of products |
| Nk8Tables.Tables.FillDiv | crt/nk8.c:111-123 | the table of quotients |
| Nk8Tables.Tables.Init | crt/nk8.c:94-123 | both tables are right afterwards, so Mult and Div are the field's |
| Elimination.QuotTimes | crt/nk8.c:76-92 | the quotient times the divisor is the dividend |
| Elimination.QuotUnique | crt/nk8.c:76-92 | and nothing else is |
| Elimination.FindInRow | crt/nk8.c:213-232 | what the pivot scan along row i finds; a non-zero pivot is found at once |
| Elimination.InverseMatrix | crt/nk8.c:199-266 | it returns 0 with a matrix such that M * inverse = I if and only if every elimination pivot is non-zero |
| Elimination.SwapHasNoPivot | crt/nk8.c:140-147 | an invertible matrix on which it fails: the row swap has no effect |
| Rank.ZeroRowNoInverse | crt/nk8.c:199-266 | a matrix with a zero row is no inverse, whatever the other one is |
| Vandermonde.RootBound | crt/nk8.c:509-550 | a monic polynomial has at most as many roots as its degree |
| Vandermonde.PowersPivots | crt/nk8.c:509-550 | the matrix of powers of distinct ids has only non-zero pivots |
| Vandermonde.DataFromParts | crt/nk8.c:552-582 | the inverse of that matrix turns the values of a polynomial into its coefficients |
| Nk8Parts.PartSizeBounds | crt/nk8.c:311-317 | the least part size of which k parts hold the block |
| Nk8Parts.BlockFromParts | crt/nk8.c:552-584 | decoding chunk by chunk and cutting off the padding gives the block, also when it is shorter than k |
| Nk8Parts.TooFewParts | crt/nk8.c:402-421 | whatever ids are chosen, fewer than k and fewer than the block has bytes, another block of the same size has the same parts there |
| Nk8Parts.EnoughParts | crt/nk8.c:402-421 | k distinct ids, or as many as the block has bytes, leave no other block of that size with the same parts |
| Nk8.GenPartIds | crt/nk8.c:319-342 | n different non-zero ids, as soon as n different bytes were drawn |
| Nk8.PartOf | crt/nk8.c:403-421 | byte j of the part is group j, padded with zeros at the end, as a polynomial at the id |
| Nk8.SplitBlock | crt/nk8.c:344-444 | the errors, with the limits 2..255 and 2..254 for n and k, and that each part is the one for its id |
| Gf256Numbers.KnownPart | crt/nk8.c:384-421 | one part of one block: of 00 80 with k = 2 the part with id 2 is 1b |
| Nk8Assemble.PickParts | crt/nk8.c:512-537 | the first k different ids in the order given, with their parts, or all of them if they are fewer |
| Nk8Assemble.PowerMatrix | crt/nk8.c:509-544 | column by column the powers of the ids |
| Nk8Assemble.Invert | crt/nk8.c:546-550 | never fails for distinct ids |
| Nk8Assemble.AssembleBlock | crt/nk8.c:446-599 | each error exactly when it is returned, the buffer untouched then; otherwise any block of which the first k parts with different ids are parts is the one returned, whatever the other parts are |
| Nk8Assemble.RoundTrip | crt/nk8.c:344-599 | for every block below 2^31 bytes, 2 <= k <= n, and every selection of parts, repeated or not, with k distinct ids, assembling returns the block |
| Pages.ReadPages | core/dio.c:39-72 | reading across pages reads the buffer that they make up |
| Pages.WritePages | core/dio.c:39-72 | writing across pages writes there and nowhere else |
| Stripes.FoldAppend | crt/xxhash.c:736-825 | consuming whole stripes of d + e is consuming those of d and then those of what was left of d, and e |
| Stripes.Stream.Update | crt/xxhash.c:736-825 | the buffered state after an update is that of all bytes so far |
| Xxhash.OneShot | crt/xxhash.c:358-467 | the one-shot loops compute the hash |
| Xxhash.Digest | crt/xxhash.c:838-919 | the digest of a state is the hash of the bytes it has seen |
| Xxhash.CallsAgree | crt/xxhash.c:358-919 | one call and any cut into updates give the same hash |
| Xxhash.PagesDsum | core/upages.c:124-148 | the sum over pages is the hash of the first len bytes, -EINVAL exactly if there are fewer |
| Xxhash.PageCount | core/upages.c:91-122 | the least number of pages for a length |
| Xxh64.Calls64 | crt/xxhash.c:358-930 | XXH64 with its own constants and steps: one call and any cut agree, and give the hash of the whole input |
| Xxh64Known.Empty64 | crt/xxhash.c:358-463 | the hash of nothing with seed 0 is EF46DB3751D8E999 |
| Xxh64Known.EmptySeeded64 | crt/xxhash.c:358-463 | that of nothing with seed 2654435761 |
| Xxh64Known.Abc64 | crt/xxhash.c:358-463 | that of abc with seed 0 is 44BC2CF5AD770999 |
| Xxh64Known.Hash45 | crt/xxhash.c:358-463 | that of the 45 bytes 0, 1, ..., 44 with that seed: a stripe, the merge and all three tail loops |
| Xxh64.PacketSums | client/lib/client.c:146-148 | the client's sum over its buffer is the server's over pages, and both are the hash of those bytes |
| Xxh32.Calls32 | crt/xxhash.c:253-733 | the same for XXH32 |
| Xxh32Known.Empty32 | crt/xxhash.c:253-355 | the hash of nothing with seed 0 is 02CC5D05 |
| Xxh32Known.EmptySeeded32 | crt/xxhash.c:253-355 | that of nothing with seed 2654435761 |
| Xxh32Known.Abc32 | crt/xxhash.c:253-355 | that of abc with seed 0 is 32D153FF |
| Xxh32Known.Hash21 | crt/xxhash.c:253-355 | that of 21 bytes with that seed: a stripe and both tail loops |
| Sha256.EightRounds | crt/sha256.c:92-155 | eight rounds with rotating register names are eight rounds of section 6.2.2 of FIPS 180-4 |
| Sha256.Process | crt/sha256.c:36-165 | the compression function of section 6.2.2 |
| Sha256Choices.F1IsCh | crt/sha256.c:68 | the short form of Ch is Ch of section 4.1.2 |
| Sha256Choices.F0IsMaj | crt/sha256.c:67 | and that of Maj is Maj |
| Sha256Stream.AddCount | crt/sha256.c:207-244 | the two 32-bit counters count bytes modulo 2^64 |
| Sha256Stream.BitLength | crt/sha256.c:247-276 | the shifts make the 64-bit length in bits of them |
| Sha256Stream.Big64Is | crt/sha256.c:247-276 | the eight bytes of a length are its digits, the high one first |
| Sha256Stream.Context.Update | crt/sha256.c:207-244 | the context after an update is that of all bytes so far |
| Sha256Stream.Context.Finish | crt/sha256.c:247-276 | the sum is that of the message padded as in section 5.1.1 |
| Sha256Stream.Streaming | crt/sha256.c:173-298 | any cut into updates below 2^32 bytes with a total below 2^61 gives that sum |
| Sha256Stream.SumAlike | crt/sha256.c:67-68 | the sum does not depend on how Ch and Maj are spelled, for any message |
| Sha256Words.Hash | crt/sha256.c:173-298 | any cut into updates gives the sum with the constants and 32-bit operations of sections 4.1.2, 4.2.2 and 5.3, Ch and Maj as the standard spells them, for SHA-256 and SHA-224 |
| Sha256Known.SumOfAbc | crt/sha256.c:36-298 | the sum of abc is the one of the standard's example; it depends on every start value, constant and rotation |
| Sha256Known.StartOf224 | crt/sha256.c:173-205 | the start values of SHA-224 are the last words of the square roots of the ninth to sixteenth prime |
| DioAge.LaterTouchIsGreater | core/dio.c:355-366 | a cluster touched in a later tick, within 63, has the greater age |
| Dio.Dev.Get | core/dio.c:199-252 | the cluster is cached, held once more and touched; contents unchanged |
| Dio.Dev.Put | core/dio.c:468-472 | held once less, whether or not a dirty flag is missing |
| Dio.Dev.Read | core/dio.c:639-659 | a held cluster shows the last write to its index |
| Dio.Dev.Write | core/dio.c:694-721 | exactly those bytes of that block change for every reader, before they are on disk |
| Dio.Dev.Zero | core/dio.c:723-748 | the block is zero for every reader |
| Dio.Dev.MapWrite | core/dio.c:682-692 | a write through the map is seen by every reader, and all is well as soon as the dirty flag is set |
| Dio.Dev.SetDirty | core/dio.c:750-755 | setting the flag is what a write through the map needs |
| Dio.Dev.Sync | core/dio.c:757-795 | what readers see is on disk |
| DioShrink.AgeAll | core/dio.c:849-876 | one tick for each cached cluster, and nothing else |
| DioShrink.Gather | core/dio.c:400-424 | the candidates, each with a reference more: all clusters that are cached and not held if they are at most 512, otherwise the first 512 |
| DioShrink.Evict | core/dio.c:431-442 | an evicted cluster is written back if its dirty flag is set, and loses its references; if the flag is missing, readers then see what is on disk |
| DioShrink.LruFrees | core/dio.c:379-451 | of those candidates the ones with the smallest ages go, until the cache is small enough or none is left |
| DioShrink.CandidatesAre | core/dio.c:400-424 | which free clusters are candidates: all, or the first 512 of more |
| DioShrink.NoOlderStays | core/dio.c:379-451 | if at most 512 clusters are free, none of them that stays has a smaller age than one that went, nor was one that went touched later |
| DioShrink.LeastRecentFirst | core/dio.c:355-366 | of two candidates, the one that goes first was not touched later |
| DioShrink.PinnedAreCached | core/dio.c:379-451 | what is held is cached, whatever has been evicted |
| DioShrink.Shrink | core/dio.c:453-461 | for every cache: if no more is held than the cache may have, the loop has ended after at most as many rounds as there were clusters; otherwise it has not ended after any number of rounds. Contents and holders stay |
| DioShrink.HeldTooMany | core/dio.c:453-461 | more held clusters than the cache may have keep it too large |
| DioShrink.TwoHeld | core/dio.c:453-461 | a state in which the loop does not end |
| DioShrink.Release | core/dio.c:282-313 | whatever is held: everything that was written is on disk and the cache is empty; the clusters that were held are left to their holders, clean, without pins and with one reference for each get |
| DioRun.Perform | core/dio.c:661-822 | each step does to the flat array of blocks what it should |
| DioRun.Run | core/dio.c:661-822 | so does every run, with every answer |
| DioRun.MapSurvives | core/balloc.c:75-103 | get, a write through the map, put and eviction as they are: the write has survived if and only if the dirty flag was set before the put, or before the write, or the write changed nothing |
| InodeMap.SlotsApart | core/inode.c:414-420 | the checksum slot of block v begins at byte 8v of the checksum blocks; a slot is inside one block, and no two overlap |
| InodeMap.OwnsExactly | core/inode.c:475-546 | an object's blocks are disjoint from everyone else's |
| InodeMap.BlockAllocFor | core/inode.c:475-546 | a block of the object gets a block and a checksum slot; it fails exactly if fewer blocks are free than it takes (one, one for a new checksum block, and those of the two insertions), and then nothing is mapped. As written it faults if and only if the checksum block is missing, the free blocks are enough for it but not for the data, and the checksum tree cannot lose the key again; all told from the trees before the call |
| InodeMap.AllocAtMost | core/inode.c:475-546 | never more than (levels of both trees + 6) blocks |
| InodeMap.RootOnlyNotStuck | core/inode.c:534-546 | the rollback never faults while the checksum tree is a root only |
| InodeFault.NextIsStuck | core/inode.c:534-538 | for every T: a checksum tree with a full root over leaves of T-1 keys takes two blocks for the next key, and cannot lose it again as written |
| InodeFault.AllocationFaults | core/inode.c:475-546 | for every T: a device and an object on it for which the allocation of a block faults |
| InodeFault.AllocationFaultsAtSource | core/inode.c:475-546 | also with T = 896 |
| InodeData.SumsAfter | core/inode.c:454-473 | after a block is written with its sum, all stored sums are right |
| InodeData.BlockReadCreate | core/inode.c:616-648 | the block is found or made, its sum is right, what was written stays, and nobody else's blocks change; a block that is there is always found, and making one fails and faults exactly as its allocation does |
| InodeData.WriteBlockBuf | core/inode.c:705-750 | exactly those bytes of the object change; the size grows to their end, taken modulo 2^64, which is their end if and only if that is below 2^64; it fails and faults exactly as the allocation of a missing block does, and if it fails nothing was written |
| InodeData.ReadBlockBuf | core/inode.c:650-703 | -ERANGE beyond the size, end of file at it, an error for a block never written, and one exactly if the stored checksum is not that of the data, whatever is damaged; else the bytes; it stops at the size unless the end of what is read is 2^64 |
| InodeData.GoodIsPlaced | core/inode.c:560-574 | in every state that the operations keep, the checksum test of no block fails |
| InodeData.WriteBuf | core/inode.c:752-795 | block by block the whole buffer, or a prefix of it exactly if the blocks, made one after the other from the trees and the free blocks before the call, run out; never over blocks that are there; the size is the greatest end written below 2^64 |
| InodeData.ReadBuf | core/inode.c:752-795 | min(len, size - off) bytes, each the object's, unless a block in between was never written; if the end is 2^64 and the size is beyond where the last block begins, all len bytes |
| InodeData.ReadWritten | core/inode.c:650-795 | over bytes that were all written a read cannot fail and returns the last value of each |
| InodePages.ChunkFits | core/inode.c:816-817 | what one turn takes stays inside the page if and only if the sum of length and page offset is a 32-bit number |
| InodePages.WriteFromPages | core/inode.c:797-838 | through pages the same as with one buffer: -EINVAL exactly after all pages are used up, too little room and faults exactly as for one buffer; the size is the greatest end of a page below 2^64 |
| InodePages.WroteSome | core/inode.c:733-736 | a write of any length leaves the size at the maximum of the old one and its end if and only if the end is below 2^64 |
| InodeRoom.ChargedTwice | core/inode.c:797-838 | what one write after another takes is what one write of both takes |
| InodeRoom.Refused | core/inode.c:797-838 | too little room for a part of a write, after the rest of it, is too little for the whole |
| InodeRoom.WriteTwice | core/inode.c:797-838 | what becomes of one write after another is what becomes of one write of both, also within one block |
| InodeRoom.SumsThere | core/inode.c:534-546 | the rollback of a write never faults where the checksum blocks were there before |
| InodePages.ReadIntoPages | core/inode.c:797-838 | the answer exactly, from the size, the blocks that are there and the room in the pages; the bytes end up in the pages from pg_off on, the rest of the pages is untouched; as many as with one buffer, but for an end of 2^64, where the last page counts instead of the last block |
| InodeLife.InodeDelete | core/inode.c:279-303 | every block of the object is given back, and no other |
| InodeLife.InodeCreate | core/inode.c:353-412 | succeeds exactly if three blocks are free, and then both trees have the degree asked for; a failure leaves nothing behind |
| Ownership.Resized | core/super.c:604-633 | one owner trading blocks with the free ones keeps every used block with one owner |
| SuperState.Undisturbed | core/super.c:573-663 | what others do to their blocks changes nothing for an object: its blocks, its checksums, its bytes |
| SuperState.ChangedStep | core/super.c:604-633 | an object that changed on its own blocks leaves the whole device in order |
| SuperState.AddStep | core/super.c:573-602 | so does an object that is put in the inode tree |
| SuperState.DropStep | core/super.c:635-663 | and one that is taken out of it |
| Super.MarkMeta | core/super.c:427-432 | exactly the header and bitmap blocks are marked |
| Super.Sb.Format | core/super.c:401-465 | formatting succeeds exactly for the devices that have a layout; then header, bitmap and the root of the inode tree are in use, there are no objects, and the device and its inode tree have the degree T that was given |
| Super.Sb.FewObjects | core/super.c:573-602 | so long as there are fewer than 2T-1 objects the inode tree is a root only, with room for one more |
| Super.CreateAtSource | core/super.c:573-602 | with T = 896 and fewer than 1791 objects a create succeeds exactly if three blocks are free, and takes exactly those |
| Super.FourObjects | core/super.c:401-602 | four objects on a fresh device of 15 blocks use all of it |
| Super.Sb.OneOwner | core/super.c:401-663 | every set bit belongs to the header and bitmap, to the inode tree or to one object |
| Super.Sb.CreateObj | core/super.c:573-602 | a new empty object, or -EEXIST exactly if the id exists, unless it runs out of blocks: exactly if fewer are free than three and those of the insertion in the inode tree, which are exactly what it takes; -ENOMEM or -EIO then exactly by what is missing; without success no object has changed |
| Super.Sb.PutObj | core/super.c:604-633 | the bytes are written over those of that object and no other, up to where the pages end, or up to where blocks ran out; which happens, and as written faults, exactly as the trees of the object and the blocks in use before the call say; the size grows to the end if and only if that is below 2^64 |
| SuperOps.PutObj | core/super.c:604-633 | the same on values |
| Super.Sb.GetObj | core/super.c:532-571 | nothing changes and every byte read that was written has its last value; the answer is exactly the one for what was written: -ERANGE beyond the size, -ENOENT if it comes to a block of the object without a byte that was written, -EINVAL if the pages are used up before the end, and otherwise success |
| SuperOps.GetAnswered | core/inode.c:665-677 | inside the size and with pages enough a get fails exactly if some block between off and the end was never written to; over written bytes it succeeds |
| Super.Sb.DeleteObj | core/super.c:635-663 | that object is gone and no other; -ENOENT exactly if there is none; as written it faults if and only if the object is there and a block of the inode tree that the deletion goes through has no key to spare |
| SuperOps.DeleteObj | core/super.c:635-663 | with the deletion from the inode tree as meant or as written: the object is gone and all its blocks are given back; as written it faults in exactly that case |
| Super.Sb.Perform | core/super.c:532-663 | one operation with its answer: that of the map of byte arrays, or refused, exactly if it runs out of blocks; only its own object's blocks change; as written it faults exactly as its put or deletion does |
| Super.Run | core/super.c:532-663 | every run of creates, puts, gets and deletes on any objects, as written or as meant: each operation does what it does on a map of byte arrays and is answered exactly as that map says, or is refused exactly if it runs out of blocks; as written the run stops at the first operation that faults, and none before was one that does; with room for the budget of the run at its start nothing is refused and only a deletion can fault |
| Super.TraceReplays | core/super.c:532-663 | a run of which nothing was refused ends with the objects of the same run on the map |
| Super.TraceContained | core/inode.c:733-741 | at every moment of every run whose puts end below 2^64, refused operations or not, every byte that was written is below the size |
| Super.PutAtTheEnd | core/inode.c:733-741 | for every object with room: a put of one page that ends at 2^64 succeeds, the size stays, and a get of the same bytes is -ERANGE |
| Super.LastByte | core/inode.c:665-667 | such an input from formatting on: a device of 64 blocks, an empty object, one byte at 2^64 - 1 |
| Super.Lifetime | core/super.c:573-663 | a life of an object among any operations on others, as written or as meant, unless something faults: once deleted it leaves no block behind, objects that nothing was done to keep their blocks, and if there was only this one the same blocks are in use as before, outside of the inode tree |

## Findings

Properties that the code does not have for all inputs, with the exact condition under which it has them.

| what fails | input | holds exactly if | members |
|---|---|---|---|
| deleting a key from a B-tree (core/btree.c:1152-1162 shifts page pointers, not child slots); with it deleting an object | a root with one key over leaves of T-1 and T keys, deleting from the first; with T = 896 the loop leaves an array of four | every block below the root on the search path, and on the walk to the neighbouring key if the key is in an inner block, has T keys or more (`Clean`) | `BtreeAsWritten.DeleteAsWritten`, `BtreeAsWritten.BorrowIsNotClean`, `BtreeAsWritten.FaultAtSource`, `SuperOps.DeleteObj` |
| for the same reason the rollback of a block allocation in a put (core/inode.c:534-538) | for every T a checksum tree with a full root over leaves of T-1 keys, a data tree that is a full root, and four free blocks | the checksum block is there; or there are blocks for all that the allocation takes, or too few for the checksum block; or every inner block on the path of its key that is full, or below the root has T-1 keys, is over a full one (all before the call) | `InodeMap.BlockAllocFor`, `BtreeClass.TreeInsert`, `InodeFault.AllocationFaults`, `InodeFault.AllocationFaultsAtSource`, `SuperOps.PutObj`, `InodeRoom.SumsThere` |
| the size of an object is the end of what was written (core/inode.c:733-736, where the end is a 64-bit sum), so that what was put can be got | one byte at 2^64 - 1 of an empty object: the put succeeds, the size stays 0, the get is -ERANGE | offset plus length is below 2^64 | `InodeData.WriteBlockBuf`, `InodePages.WroteSome`, `Super.Sb.PutObj`, `Super.PutAtTheEnd`, `Super.LastByte` |
| reading and writing stay inside a page (core/inode.c:816, where length plus page offset is a 32-bit sum) | page offset 1, length 2^32 - 1 | the sum is below 2^32 | `InodePages.ChunkFits` |
| inverting a matrix (crt/nk8.c:140-147 swaps copies) | the 2 x 2 matrix that exchanges two rows | every elimination pivot is non-zero, as for the matrices of `nk8_assemble_block` | `Elimination.InverseMatrix`, `Elimination.SwapHasNoPivot`, `Vandermonde.PowersPivots` |
| shrinking the cache comes to an end (core/dio.c:453-461) | a cache for one cluster with two of them held | no more clusters are held than the cache may have | `DioShrink.Shrink`, `DioShrink.HeldTooMany`, `DioShrink.TwoHeld` |

The server passes page offset 0 (core/net.c:295-300), and the offset that the client sends.

## Left out

- Locks, RCU, atomics, completions and threads: operations run one after another, and `dio_clu_lookup_create` and `dio_clu_remove` are single steps.
- Node pages and their layout on disk, node checksums and re-reading a tree from disk: a block of a tree holds a node as a value; `include/nkfs_image.h` sizes the key array on disk with the number of value pages.
- The bytes of inode blocks and of tree blocks: `Fs.dev` is about data and checksum blocks; inodes and nodes are kept as values by block number.
- I/O errors, failing memory allocation (other than for blocks) and crash consistency.
- DeleteChildIndex: models the shift of child slots that the source's comment describes; the statements at core/btree.c:1158-1161 move page pointers, which `BtreeAsWritten` models.
- BorrowFromRight: about child slots shifted as intended, which never holds as written: `BtreeAsWritten.BalanceAsWritten` shows that every borrow faults.
- BorrowFromLeft: about child slots shifted as intended, which never holds as written: `BtreeAsWritten.BalanceAsWritten` shows that every borrow faults.
- BorrowOrMerge: about child slots shifted as intended; as written only if the child has a key to spare, when nothing is borrowed or merged (`BtreeAsWritten.BalanceAsWritten`).
- ChildBalance: about child slots shifted as intended; as written only if the child has a key to spare (`BtreeAsWritten.BalanceAsWritten`).
- FoundMerge: about child slots shifted as intended, which never holds as written.
- FindEdge, FromNeighbour: about child slots shifted as intended; as written only if the blocks of that walk have a key to spare (`BtreeAsWritten.EdgeAsWritten`).
- NodeDeleteKey: about child slots shifted as intended (see Findings); the restart after copying a neighbour up is modelled as going to the leaf directly, where the copied key is then removed.
- EraseTree: the callbacks are returned as a list; `InodeDelete` frees the blocks of that list after the walk, not during it.
- Space: the block size is the 65536 bytes that every device is opened with (core/dev.c:170).
- InodeMap, InodeData: the checksum of a block is any function to eight bytes; that it is hard to forge is not stated.
- WriteFromPages, ReadIntoPages, PutObj, GetObj, Run: offset plus length is at most 2^64; beyond that the code goes on in block 2^48 of the object and, from the next page on, at offset 0. Length plus page offset is below 2^32, outside of which `ChunkFits` shows that the page is left.
- Run, Perform, Lifetime: nothing is said about the state after a fault.
- MapOp: a write through the map and the setting of the flag are one step of a run.
- SplitBlock, AssembleBlock: block sizes are below 2^31, because the source indexes blocks with `int`.
- GenPartIds: the random bytes are a parameter; that enough different ones come up is a condition.
- Streaming, Update: totals are below 2^64 bytes for XXH and 2^61 for SHA-256, where the counters wrap around.
- SortNodes: `sort` of the kernel is modelled by insertion; only that the result is sorted by age matters.
- Kernel radix trees and rbtrees are maps; `nkfs_sb_load`, listing and querying objects, choosing a device, statistics, `nkfs_btree_node_check` as a program, `core/route.c`, `core/net.c`, sockets, clients and command line tools are not modelled.
- `gf_test_matrix`, `nk8_test`, saving tables, identifiers and hexadecimal strings (`crt/obj_id.c`, `crt/char2hex.c`): easy members only.
