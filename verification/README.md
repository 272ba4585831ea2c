# Aleth core: verified models of the trie, the interpreter and two companions

This project models the parts of the Aleth Ethereum client in which a mistake is hardest to see, and
proves what they are for. `dafny verify dfyconfig.toml` checks everything.

**The Merkle-Patricia trie.** `Bytes`, `HexPrefix`, `Rlp`, `RlpStreams` and `RlpViews` are the byte
formats: nibble slices and hex-prefix keys, RLP with the stream encoder that inserts list headers
late, the strict reader, and the cached subscript. `Tries`, `TrieCanonical` and `TrieDelete` treat
the trie as a tree: insertion and removal as the source does them (with cleve, branch, graft and
merge), the map they stand for, uniqueness of canonical trees, and exactly when removal misreads its
input, with `TrieMisreads` and `TrieFollows` for what it makes of a value taken for a hash and
`TrieFaults` for runs in which that happens. `TrieNodes`, `TrieStandard`, `TrieStray`, `NodeStore`,
`TrieAccounts`, `TrieStore` and `TrieSession` store the tree: nodes under 32 bytes inlined, others filed
by hash with a reference count, in a cache in front of a disk. `TrieTags`, `TrieHash` and `TrieRoots`
are empty values and the batch builder, `TrieEntries` and `TrieIterators` the iterators.

**The EVM interpreter.** `EvmCode` prepares the code: jump table, constant pool, pre-verified jumps.
`EvmMetering`, `EvmStep` and `EvmRuns` are metering, one instruction, and whole runs; `EvmReference`
and `EvmLaws` say what a step costs and does in the numbers of the Yellow Paper. `EvmArith` is
exponentiation. `EvmVm` is the interpreter object with its stack buffer, memory and counters.
`EvmPool` is about code with more constants than 16-bit offsets reach.

**Companions.** `RangeMasks` is the interval set, `GasLimits` the block gas limit rule and its
verifier.

The main results, each for all inputs and all runs:

- *Roots do not depend on history.* Two canonical trees with the same lookups are equal
  (`TrieCanonical.CanonicalUnique`), with the nodes of the Yellow Paper, Appendix D
  (`TrieStandard.CasesComplete` and the rules before it), so the batch builder and the incremental
  trie agree for any entries in any order, empty values included (`TrieRoots.SideBySide`), and in any
  run of updates, removals, commits and rollbacks the root determines the map
  (`TrieSession.Session.RootIsTheMaps`).
- *Reference counts are exact.* After every insertion, for keys of any kind, and after every removal
  that does not go wrong, each node not yet on disk is counted exactly as often as it occurs as a
  hashed node in the unfolded tree (`TrieStore.GenericTrieDB.Insert` and `.Remove`). Insertion asks to
  remove a node it never stored when a key is a proper prefix of a stored one. In a canonical trie
  that request never hits a live node (`TrieStray.StrayHarmless`), so insertion needs no prefix-free
  keys; in others the counts stay exact if and only if that node is not counted, and
  `TrieFaults.EmptyValueLosesNode` is a run in which an empty value leads to the loss of a node.
- *Removal is map deletion on keys that are no prefixes of one another*
  (`TrieDelete.DeleteRefines`). On other keys it can take a value for the hash of a node, or read past
  the end of the key; `TrieDelete.FaultsExactly` says exactly when that goes wrong, in terms of the
  stored map and of what the store holds under the value, and `TrieFaults` shows a run for each way.
- *The two builds of the interpreter take the same steps if and only if every pooled constant is found
  again by its 16-bit offset* (`EvmPool.AgreeExactly`), and then run alike (`EvmRuns.SameRun`). That is
  so for all code of up to 458752 bytes (`EvmRuns.SmallCodeFaithful`), and not for the 458766 bytes of
  `EvmPool.FarCodeDiffers`, which leave different numbers on the stack. The optimised build stays on the
  instructions of the code if and only if what it fetches for pre-verified jumps are destinations
  (`EvmPool.LandsExactly`); on that code it jumps astray (`EvmPool.FarJumpMisses`).
- *Gas plus the price of memory never grows, and every step that goes on costs gas*, across calls
  with stipends, so runs end, memory offsets are exact below 2^45 gas, and 64-bit sums do not wrap
  (`EvmRuns.RunConserves`, `EvmRuns.OffsetsExact`, `EvmMetering.NoOverflow`).
- *A step throws exactly where the Yellow Paper says, at its prices in unbounded numbers*
  (`EvmReference.VerdictExactly`): the 63-bit cut-offs of the source make no difference. What the
  instructions do to stack, memory, gas and program counter is stated byte by byte (`EvmLaws`).
- *The strict RLP reader accepts exactly the encoder's image* (`Rlp.AcceptsExactlyEncodings`), and
  the stream encoder writes it (`RlpStreams.PreOrderEncodes`). The cached subscript agrees with a scan
  but for the last readable item of a malformed list after an exception (`RlpViews.Subscripts`).
- *A miner's gas limit is accepted if and only if the parent's limit is at least the divisor*
  (`GasLimits.AcceptedExactly`). From such a limit empty blocks drive it monotonically to the target if
  and only if it is there already, or is at least twice the divisor and the target is either above it
  or no less than twice the divisor minus one (`GasLimits.Converges`, `GasLimits.OnlyThen`).

How the source is represented:

- The hash is ideal. A digest is 32 bytes that remember what was hashed, so equal digests have equal
  preimages and every length is as in the source.
- An empty value stands for "no value", as it does for `at` and `contains`.
- Exceptions are an `ok` flag, an `Option` or an error value. After a refused call the source's object
  is given up, so contracts then promise nothing about it unless they say so.
- The C++ object whose methods update its fields is a class with the same fields; ghost fields and
  ghost parameters carry the tree, the list under construction or the entries still to come.
- The outside of the interpreter (accounts, balances, storage, callees) is a `Host` record per step,
  with arbitrary answers. A callee gives back no more gas than it got (`EvmRuns.Honest`). The table
  of instruction metrics is a parameter with the stack effects of the standard
  (`EvmStep.Standard`) and no free instruction among those it prices (`EvmRuns.Priced`).

Where the source and its comments part, the model follows the source: `killNode` is called from
`place` on nodes that were never inserted, and `remove` walks through leaves without looking at the
leaf flag.

## Model

| member | source | states |
|---|---|---|
| Bytes.KeccakInjective | aleth/libdevcore/SHA3.h:40-48 | the ideal hash: 32 bytes, and equal digests come from equal strings |
| HexPrefix.SharedNibbles | aleth/libdevcore/TrieCommon.h:36-48 | the loop finds the longest common prefix of two ranges of nibbles, as SharedPrefixIsLongest characterises it |
| HexPrefix.NibbleRule | aleth/libdevcore/TrieCommon.h:31-34 | the nibbles of a byte string: the high half of each byte first |
| HexPrefix.SharedPrefixIsLongest | aleth/libdevcore/TrieCommon.h:36-48 | the shared part is a prefix of both keys and the next nibbles, if there are any, differ |
| HexPrefix.NibbleSlice.Contains | aleth/libdevcore/TrieCommon.h:65-66 | true exactly when the other key is a prefix of this one |
| HexPrefix.NibbleSlice.Shared | aleth/libdevcore/TrieCommon.h:67-68 | the number of leading nibbles two views have in common, at any offsets |
| HexPrefix.NibbleSlice.Equals | aleth/libdevcore/TrieCommon.h:86 | slices are equal exactly when they view the same nibbles, whatever data and offset they view them in |
| HexPrefix.NibbleSlice.IsEarlierThan | aleth/libdevcore/TrieCommon.h:69-85 | true exactly when the key is lexicographically before the prefix without having it as a prefix |
| HexPrefix.EncodeVector | aleth/libdevcore/TrieCommon.cpp:46-61 | the loop over a nibble vector yields the hex-prefix encoding of the chosen part, for every begin, end and flag |
| HexPrefix.EncodeSlice | aleth/libdevcore/TrieCommon.cpp:63-82 | the same for part of a slice at any offset |
| HexPrefix.EncodeTwo | aleth/libdevcore/TrieCommon.cpp:84-114 | the same for the concatenation of two slices |
| HexPrefix.KeyOfEncode | aleth/libdevcore/TrieCommon.h:97-112 | keyOf and isLeaf give back the very key and flag, for every key and flag |
| HexPrefix.EncodeInjective | aleth/libdevcore/TrieCommon.cpp:30-61 | two keys or flags never share an encoding |
| HexPrefix.EncodeRule | aleth/libdevcore/TrieCommon.cpp:30-61 | bit 5 of the first byte tells a leaf, bit 4 an odd key, whose first nibble is in the same byte; the other nibbles follow two to a byte (Yellow Paper, Appendix C) |
| HexPrefix.DecodeRule | aleth/libdevcore/TrieCommon.h:97-117 | isLeaf is bit 5 of the first byte, and keyOf gives the nibbles behind the first one or two |
| HexPrefix.EncodeKeyOf | aleth/libdevcore/TrieCommon.h:97-112 | re-encoding what was read restores the string exactly when it has the form the encoder writes |
| HexPrefix.KeyLessTransitive | aleth/libdevcore/TrieCommon.h:74-85 | the key order that the iterator and the sorted maps rely on is transitive |
| HexPrefix.KeyLessAsymmetric | aleth/libdevcore/TrieCommon.h:74-85 | no two keys are each before the other |
| HexPrefix.KeyLessTotal | aleth/libdevcore/TrieCommon.h:74-85 | of two different keys one is before the other |
| Rlp.DecodeEncode | aleth/libdevcore/RLP.cpp:36-213 | reading an encoding strictly, down to the last item, gives back the item (Yellow Paper, Appendix B) |
| Rlp.BigEndianRule | aleth/libdevcore/RLP.h:437-444 | the digits of a number to the base 256, the most significant one first and not zero |
| Rlp.DataRule | aleth/libdevcore/RLP.cpp:294-313 | one byte below 128 stands for itself; else the length goes before the string, from 128 on below 56 bytes, from 183 on with the length's own bytes beyond (Yellow Paper, Appendix B) |
| Rlp.ListRule | aleth/libdevcore/RLP.cpp:284-292 | a list is its items' encodings one behind the other, and their length before them, from 192 or 247 on |
| Rlp.EncodeDecode | aleth/libdevcore/RLP.cpp:106-213 | whatever the strict reader accepts is the encoding of what it read, and of readable size |
| Rlp.AcceptsExactlyEncodings | aleth/libdevcore/RLP.cpp:106-213 | the reader accepts a string if and only if it is the encoding of some item of readable size |
| Rlp.EncodeInjective | aleth/libdevcore/RLP.cpp:228-347 | different items have different encodings |
| Rlp.PrefixFree | aleth/libdevcore/TrieHash.cpp:112-119 | no encoding is a proper prefix of another, so keys of the form rlp(j) are prefix-free |
| Rlp.SizeOfEncoding | aleth/libdevcore/RLP.cpp:106-115 | an encoding announces exactly its own size, whatever bytes follow it |
| Rlp.EncodeAllAt | aleth/libdevcore/RLP.cpp:215-226 | the i-th item's encoding lies in the payload right behind those of the items before it |
| RlpStreams.PreOrderAdds | aleth/libdevcore/RLP.cpp:274-282 | feeding an item in pre-order is appending it as a whole, under any open lists |
| RlpStreams.PreOrderEncodes | aleth/libdevcore/RLP.cpp:228-347 | feeding any item to a fresh stream in pre-order writes exactly its recursive encoding and leaves no list open |
| RlpStreams.InsertHeader | aleth/libdevcore/RLP.cpp:249-269 | shifting the bytes of a finished list up and writing its header in the gap yields prefix plus encoded list; it succeeds for every size within the reader's lengths |
| RlpStreams.RlpStream.NoteAppended | aleth/libdevcore/RLP.cpp:235-272 | counting items closes exactly the lists that become complete, innermost first; it throws only if a list would get too many items or a length does not fit |
| RlpStreams.RlpStream.AppendRaw | aleth/libdevcore/RLP.cpp:228-233 | appending finished encodings is appending their items |
| RlpStreams.RlpStream.Append | aleth/libdevcore/RLP.cpp:294-313 | appending a byte string, with or without its leading zeros, is appending that data item |
| RlpStreams.RlpStream.AppendInt | aleth/libdevcore/RLP.cpp:315-338 | appending a number is appending its minimal big-endian bytes |
| RlpStreams.RlpStream.PushInt | aleth/libdevcore/RLP.h:437-444 | the backwards loop writes the big-endian bytes of the number |
| RlpStreams.RlpStream.PushCount | aleth/libdevcore/RLP.cpp:340-347 | a long length is written as its size and its bytes; refused only beyond the reader's lengths |
| RlpStreams.RlpStream.AppendList | aleth/libdevcore/RLP.cpp:274-282 | announcing a list opens it, the empty list is complete at once |
| RlpStreams.RlpStream.AppendListOf | aleth/libdevcore/RLP.cpp:284-292 | appending a whole list from the encodings of its items |
| RlpStreams.RlpStream.Out | aleth/libdevcore/RLP.h:421-422 | the output is the encodings of the finished items, refused while a list is open |
| RlpStreams.RlpStream.AppendVector | aleth/libdevcore/RLP.h:397-399 | appending nested vectors element by element appends the one item they stand for |
| RlpViews.ItemOfEncodings | aleth/libdevcore/RLP.cpp:83-104 | scanning a payload from its start finds the encoding of the i-th item, and nothing out of range |
| RlpViews.EncodedListScans | aleth/libdevcore/RLP.cpp:215-226 | the payload of every encoded list can be scanned to its end, has the list's number of items, and shows their encodings |
| RlpViews.FoundItem | aleth/libdevcore/RLP.cpp:83-104 | for a payload made of items the scan never throws and finds just these |
| RlpViews.CutSized | aleth/libdevcore/RLP.h:337 | an item cut out of a longer string announces the same size |
| RlpViews.RlpList.At | aleth/libdevcore/RLP.cpp:83-104 | the cached subscript finds, or throws, as a scan from the start does, in or out of range and also on malformed lists, except for one item: once a subscript threw on the way, the last readable item cannot be read until the cache was reset |
| RlpViews.Subscripts | aleth/libdevcore/RLP.cpp:83-104 | for any subscripts one after the other, exceptions caught, an answer differs from the scan if and only if it asks for the last readable item, an earlier subscript threw, and none in between was smaller |
| RlpViews.AskedTooFar | aleth/libdevcore/RLP.cpp:83-104 | for example: in the list C4 01 02 82 01 the second item is found, the third throws, and then the second throws, too |
| RlpViews.RlpList.Items | aleth/libdevcore/RLP.cpp:215-226 | the loop counts the items; it throws exactly where the payload is not made of items |
| RlpViews.RlpIterator.Next | aleth/libdevcore/RLP.cpp:55-66 | advancing moves to the next item of the scan, and throws exactly where that cannot be read |
| RlpViews.RlpIterator.Current | aleth/libdevcore/RLP.cpp:55-81 | the iterator shows the item the scan finds at its position, and nothing at the end |
| RlpViews.ToVector | aleth/libdevcore/RLP.cpp:55-81 | iterating from begin to end gives exactly the items the subscript gives, in order, and throws exactly where the payload is not made of items |
| Tries.InsertLookup | aleth/libdevcore/TrieDB.h:777-922 | insertion refines map update for arbitrary keys, also when one is a prefix of another: the key gets its value and no other lookup changes |
| Tries.InsertCanonical | aleth/libdevcore/TrieDB.h:833-903 | inserting a non-empty value keeps the tree canonical: the nodes cleve and branch make on the way never survive |
| Tries.CleveInsert | aleth/libdevcore/TrieDB.h:865-872 | cutting a node at the disagreement and going on is inserting below an extension with the shared nibbles |
| Tries.SplitInsert | aleth/libdevcore/TrieDB.h:873-878 | splitting a node that shares nothing puts the new entry into another slot of a fresh branch |
| Tries.CleveLookup | aleth/libdevcore/TrieDB.h:1112-1127 | cutting a node in two changes no lookup |
| Tries.ForkLookup | aleth/libdevcore/TrieDB.h:1167-1195 | turning a node into a branch changes no lookup |
| TrieCanonical.CanonicalUnique | aleth/libdevcore/TrieDB.h:833-922 | two canonical trees with the same lookups are the same tree (Yellow Paper, Appendix D) |
| TrieCanonical.TwoKeys | aleth/libdevcore/TrieDB.h:833-922 | below a canonical extension or branch lie two keys that part right behind its stem |
| TrieCanonical.InsertAllHolds | aleth/libdevcore/TrieDB.h:777-789 | any run of insertions builds a tree that holds exactly the map the run amounts to, canonical if no value is empty |
| TrieCanonical.InsertCanonicalExactly | aleth/libdevcore/TrieDB.h:777-922 | insertion keeps a tree canonical if and only if the value is not empty or stored keys that go on from the key part right behind it |
| TrieCanonical.InsertJointed | aleth/libdevcore/TrieDB.h:833-922 | insertion keeps every extension leading to a branch, for any values |
| TrieTags.HistoryIndependent | aleth/libethcore/BlockHeader.cpp:235-258 | runs of insertions that amount to the same map build the same tree, empty values or not |
| TrieTags.StripInsert | aleth/libdevcore/TrieDB.h:833-922 | insertion does not depend on what the values are, empty or not |
| TrieTags.StripCanonical | aleth/libdevcore/TrieDB.h:833-922 | a tree whose values are not empty without their tags stays canonical when these are taken off |
| TrieCanonical.EmptyValueLeavesATrace | aleth/libdevcore/TrieDB.h:777-789 | on an untouched trie, for example, an empty value leaves the lookups as they were but not the tree |
| TrieDelete.UniqueSlot | aleth/libdevcore/TrieCommon.cpp:116-128 | the index returned is in use and the only one besides the exception; 255 if there is no such index or more than one |
| TrieDelete.CollapseLookup | aleth/libdevcore/TrieDB.h:1129-1165 | graft and merge keep the map and restore canonical form |
| TrieDelete.ShrinkLookup | aleth/libdevcore/TrieDB.h:1032-1045 | a branch that lost an entry and is merged and grafted keeps its map and is canonical again |
| TrieDelete.DeleteLookup | aleth/libdevcore/TrieDB.h:924-1066 | a removal that reports success has removed exactly that key and left a canonical tree, for any keys and any store; one that reports no change was asked for an absent key |
| TrieDelete.FaultsExactly | aleth/libdevcore/TrieDB.h:936-1047 | given what the store holds, removal goes wrong if and only if the stored keys clash with the key: a leaf ends on the way to it and its value, looked up as a hash, does not lead to a node without the rest of the key; or stored keys part right behind it; or a prefix of it would be left alone with a value of more than 32 bytes, or one under whose hash the store holds a list of two items or no RLP |
| TrieDelete.AskedBefore | aleth/libdevcore/StateCacheDB.cpp:52-66 | where counts are not enforced, the value of a branch left alone is looked up in the store as it was before the removal |
| TrieDelete.DeleteRefines | aleth/libdevcore/TrieDB.h:924-1066 | for keys that are no prefixes of one another, as with keys of one length, removal never fails and is map deletion |
| TrieDelete.InsertThenDelete | aleth/libdevcore/TrieDB.h:777-789 | removing a freshly inserted key restores the very tree there was before |
| TrieFaults.BeyondLeaf | aleth/libdevcore/TrieDB.h:970-976 | a removal beyond a leaf whose value names nothing in the store goes wrong |
| TrieFaults.BeforeFork | aleth/libdevcore/TrieDB.h:1015-1019 | a removal at which two stored keys part goes wrong |
| TrieFaults.LeavingLonely | aleth/libdevcore/TrieDB.h:1038-1045 | a removal that leaves a prefix of the key alone goes wrong if and only if the prefix's value is taken for a two-item node |
| TrieFaults.RemoveBeyondLeaf | aleth/libdevcore/TrieDB.h:924-934 | for example: insert 01 and remove 01 02 |
| TrieFaults.RemoveBeforeFork | aleth/libdevcore/TrieDB.h:924-934 | for example: insert 01 02 and 01 12 and remove 01 |
| TrieFaults.RemoveLeavingLonely | aleth/libdevcore/TrieDB.h:924-934 | for example: insert 01 with any value, then 01 02, and remove 01 02; it fails for more than 32 bytes and works for any shorter value and any 32 bytes that are no digest |
| TrieFaults.FourSteps | aleth/libdevcore/TrieDB.h:777-922 | four insertions, one with an empty value, and the trees they build; the last asks to remove a branch that is a node of the trie |
| TrieFaults.OccursOnce | aleth/libdevcore/TrieDB.h:777-922 | after the four insertions that branch still occurs in the trie, once |
| TrieFaults.EmptyValueLosesNode | aleth/libdevcore/TrieDB.h:777-922 | after the four insertions and a commit the branch cannot be looked up, though a value lies below it |
| TrieFollows.AbsentMeans | aleth/libdevcore/TrieDB.h:947-1066 | on the strings of a stored trie reading byte by byte finds a key absent if and only if removal on the tree does |
| TrieFollows.UnderMeans | aleth/libdevcore/TrieDB.h:936-1066 | a value that is the hash of a trie's node is followed as removal in that trie, and taken for a two-item node if that node is one |
| TrieNodes.NodeSized | aleth/libdevcore/RLP.cpp:208-211 | the item of every tree with paths of at most 2^32-1 nibbles and values of at most 2^56 bytes stays within the lengths the reader accepts |
| TrieNodes.NodeItemInjective | aleth/libdevcore/TrieDB.h:247-282 | a node's item determines its tree |
| TrieNodes.RefKinds | aleth/libdevcore/TrieDB.h:1103-1110 | a reference tells apart the empty slot, the inlined node under 32 bytes and the hash of a stored node |
| TrieNodes.RootInjective | aleth/libdevcore/TrieDB.h:88-93 | under the ideal hash equal roots mean equal trees |
| TrieStandard.ReferenceRule | aleth/libdevcore/TrieDB.h:1103-1110 | a node of 32 bytes or more is referred to by its hash, any other is written out; the root always by its hash |
| TrieStandard.EmptyRule | aleth/libdevcore/TrieHash.cpp:27-30 | without entries the node is the empty string, encoded 80 |
| TrieStandard.LeafRule | aleth/libdevcore/TrieHash.cpp:31-35 | one entry is a pair of its key, with the leaf flag, and its value (Yellow Paper, Appendix D) |
| TrieStandard.ExtensionRule | aleth/libdevcore/TrieHash.cpp:48-53 | entries that share some nibbles and then part are a pair of these, without the flag, and the node of what is below them |
| TrieStandard.BranchRule | aleth/libdevcore/TrieHash.cpp:54-77 | entries that part at once are a list of what is below each nibble, in order, and the value of the empty key |
| TrieStandard.CasesComplete | aleth/libdevcore/TrieHash.cpp:27-79 | every canonical trie is of one of these kinds |
| TrieStray.StrayIsFork | aleth/libdevcore/TrieDB.h:873-886 | the string that place is asked to remove without its having been stored is always a branch with one slot in use |
| TrieStray.StrayNotSelf | aleth/libdevcore/TrieDB.h:833-903 | that string is none of the nodes on the way down to it |
| TrieStray.StrayHarmless | aleth/libdevcore/TrieDB.h:1068-1070 | in a canonical trie no node is stored under that string, so the request removes nothing, whatever the keys |
| NodeStore.InsertedCounts | aleth/libdevcore/StateCacheDB.cpp:79-95 | inserting a string raises its count by one and no other |
| NodeStore.KilledCounts | aleth/libdevcore/StateCacheDB.cpp:97-124 | killing a string lowers its count by one if positive, and no other |
| NodeStore.OverlayDB.Insert | aleth/libdevcore/StateCacheDB.cpp:79-95 | a first insertion files the string with count one, a later one counts up |
| NodeStore.OverlayDB.Kill | aleth/libdevcore/OverlayDB.cpp:141-163 | the cached count goes down if positive; the disk is not touched |
| NodeStore.OverlayDB.Resolves | aleth/libdevcore/OverlayDB.cpp:125-139 | every counted or committed string can be looked up under its hash, with counts enforced or not |
| NodeStore.LookupRule | aleth/libdevcore/StateCacheDB.cpp:52-66 | something is found exactly if it is cached, and counted where counts are enforced, or on a disk; and it is the string with that hash |
| NodeStore.OverlayDB.Keys | aleth/libdevcore/StateCacheDB.cpp:173-183 | exactly the hashes with a positive count |
| NodeStore.OverlayDB.Purge | aleth/libdevcore/StateCacheDB.cpp:153-171 | drops exactly the entries without references |
| NodeStore.OverlayDB.Commit | aleth/libdevcore/OverlayDB.cpp:48-100 | after the loop exactly the strings on disk before or counted are on disk, and the cache is empty; without a disk nothing changes |
| NodeStore.OverlayDB.Rollback | aleth/libdevcore/OverlayDB.cpp:117-123 | forgets the cache and keeps the disk |
| TrieAccounts.TwoItemNode | aleth/libdevcore/TrieCommon.h:97-117 | keyOf and isLeaf read the key and the kind of a two-item node back from its item |
| TrieAccounts.PlaceTraded | aleth/libdevcore/TrieDB.h:1068-1083 | place gives back the old node and takes no references of its own; a branch made on the way loses one if it is counted |
| TrieAccounts.LostBelow | aleth/libdevcore/TrieDB.h:833-903 | giving back the nodes on the way down does not touch it, so whether it is counted is decided before the insertion |
| TrieAccounts.SplitTraded | aleth/libdevcore/TrieDB.h:1112-1127 | cleve and branch give back the old node and take one reference, to the shortened one |
| TrieAccounts.GraftedCounts | aleth/libdevcore/TrieDB.h:1129-1150 | graft gives back the node whose key it joins and keeps what hangs below it |
| TrieAccounts.RootSwapped | aleth/libdevcore/TrieDB.h:777-789 | after the root has been exchanged every count is again the number of occurrences, but for a lost reference |
| TrieAccounts.RepaidExactly | aleth/libdevcore/TrieDB.h:1068-1083 | with the lost reference put back the accounts are exact, so without it they are exact if and only if none was lost |
| TrieAccounts.InsertedAccounts | aleth/libdevcore/TrieDB.h:777-789 | insertion as a whole: every node of the new tree is there, and exact counts stay exact if and only if no reference was lost, as always in canonical tries |
| TrieAccounts.OnlyBelow | aleth/libdevcore/TrieDB.h:1032-1045 | with one slot in use all references below a branch are below that slot |
| TrieAccounts.CommitKeeps | aleth/libdevcore/OverlayDB.cpp:48-100 | committing keeps the accounts and leaves every node of the trie on disk |
| TrieAccounts.LeftExactly | aleth/libdevcore/TrieDB.h:201-206 | what the walk takes out of the counted hashes are exactly the hashes of the strings that occur in the trie |
| TrieAccounts.LeftOnDisk | aleth/libdevcore/TrieDB.h:201-206 | by conservation of references, all counted hashes that a walk from the root leaves belong to strings on disk |
| TrieStore.GenericTrieDB.Init | aleth/libdevcore/TrieDB.h:68 | the empty trie's node is stored; its accounts are exact if the store counted nothing else |
| TrieStore.GenericTrieDB.ForceInsertNode | aleth/libdevcore/TrieDB.h:290-291 | the node is counted once more under its hash, nothing else changes |
| TrieStore.GenericTrieDB.KillNode | aleth/libdevcore/TrieDB.h:298-299 | only a node of 32 bytes or more loses a reference |
| TrieStore.GenericTrieDB.SetRoot | aleth/libdevcore/TrieDB.h:70-81 | returning to a root whose nodes are accounted for restores that trie; the empty trie's node is stored exactly if it is missing; any other root succeeds exactly if it can be looked up, and with Verification::Skip always, without touching the store |
| TrieStore.GenericTrieDB.AllResolve | aleth/libdevcore/TrieDB.h:287 | every node that occurs in the trie can be looked up, so no reachable node ever has lost its last reference |
| TrieStore.GenericTrieDB.Node | aleth/libdevcore/TrieDB.h:287 | what is looked up under the hash of a stored node and decoded is that node's item |
| TrieStore.GenericTrieDB.Insert | aleth/libdevcore/TrieDB.h:777-789 | the stored trie becomes the updated tree with its root hash, for any value and any trie whose nodes can be looked up; if the counts were exact, they are so again if and only if the string that place wrongly asks to remove is not counted, else they are one short for that string; a canonical trie always keeps exact counts, and stays canonical if and only if the value is not empty or stored keys that go on from the key part right behind it |
| TrieStore.GenericTrieDB.Remove | aleth/libdevcore/TrieDB.h:924-934 | the stored trie becomes the tree without the key, with exact counts; nothing at all changes for an absent key; it fails if and only if keys, values and store are those of FaultsExactly |
| TrieStore.GenericTrieDB.At | aleth/libdevcore/TrieDB.h:791-794 | the value found through the store is the value of the tree |
| TrieStore.GenericTrieDB.AtAux | aleth/libdevcore/TrieDB.h:796-826 | the recursion through inlined and stored nodes finds the value of the subtree |
| TrieStore.GenericTrieDB.MergeAt | aleth/libdevcore/TrieDB.h:833-903 | the new node's item is that of the updated subtree, and references are conserved but for the one that is lost: the old node given back, what hangs below the new one counted |
| TrieStore.GenericTrieDB.MergeAtAux | aleth/libdevcore/TrieDB.h:905-922 | the same for a child, whose old reference is exchanged for the new one |
| TrieStore.GenericTrieDB.Place | aleth/libdevcore/TrieDB.h:1068-1083 | the item with the value placed, and the accounts of that step |
| TrieStore.GenericTrieDB.CleveNode | aleth/libdevcore/TrieDB.h:1112-1127 | the item of the node cut in two, and the accounts of that step |
| TrieStore.GenericTrieDB.BranchNode | aleth/libdevcore/TrieDB.h:1167-1195 | the item of the branch made of a two-item node, and the accounts of that step |
| TrieStore.GenericTrieDB.StreamNode | aleth/libdevcore/TrieDB.h:1103-1110 | a node under 32 bytes is written into its parent, any other is counted once and referred to by hash |
| TrieStore.GenericTrieDB.UniqueInUse | aleth/libdevcore/TrieCommon.cpp:116-128 | the loop over the items returns the one used slot besides the exception |
| TrieStore.GenericTrieDB.Rejoin | aleth/libdevcore/TrieDB.h:1129-1150 | isTwoItemNode, graft and merge on stored nodes: the joined item, with the joined node given back |
| TrieStore.GenericTrieDB.Deref | aleth/libdevcore/TrieDB.h:942-945 | a reference to a child, inlined or by hash, leads to the child's item |
| TrieStore.GenericTrieDB.DeleteAt | aleth/libdevcore/TrieDB.h:947-1049 | not found without any change, gone wrong, or the new node's item with references conserved |
| TrieStore.GenericTrieDB.DeleteAtAux | aleth/libdevcore/TrieDB.h:1051-1066 | the same for a child and its reference |
| TrieStore.GenericTrieDB.ShrinkAt | aleth/libdevcore/TrieDB.h:1032-1045 | a branch left with one slot is merged and grafted; if only its value is left, that is looked up as isTwoItemNode does |
| TrieStore.GenericTrieDB.LeftOvers | aleth/libdevcore/TrieDB.h:201-206 | exactly the counted hashes of strings that do not occur in the trie are left over; all of them are on disk, and without a disk there are none; for every trie with exact counts whose extensions lead to branches |
| TrieStore.GenericTrieDB.DescendList | aleth/libdevcore/TrieDB.h:179-198 | the walk takes exactly the hashes of the nodes below out of the mask, and never finds the trie invalid where extensions lead to branches |
| TrieStore.GenericTrieDB.DescendEntry | aleth/libdevcore/TrieDB.h:156-176 | the same through a reference, whose hash is taken out too |
| TrieSession.Session.Do | aleth/libdevcore/TrieDB.h:777-934 | one step of a run, update, removal, commit or rollback, does to the trie what it does to the map |
| TrieSession.Session.CommitAll | aleth/libdevcore/OverlayDB.cpp:48-100 | after a commit every node of the trie is on disk |
| TrieSession.Session.RollBack | aleth/libdevcore/OverlayDB.cpp:117-123 | a rollback and a return to the last committed root bring back exactly the committed tree |
| TrieSession.Session.Run | aleth/libdevcore/OverlayDB.cpp:48-139 | after any run the trie holds exactly the map of the run and every node of it resolves |
| TrieSession.Session.Get | aleth/libdevcore/TrieDB.h:791-794 | reading gives the value of the run's map |
| TrieSession.Session.RootIsTheMaps | aleth/libdevcore/TrieDB.h:88-93 | the root equals that of a canonical tree if and only if the tree holds the run's map, whatever steps led there |
| TrieSession.EraseHolds | aleth/libdevcore/TrieDB.h:924-934 | on keys of one length removal deletes exactly that key from the map |
| TrieHash.SharedPre | aleth/libdevcore/TrieHash.cpp:38-48 | the loop finds the longest prefix that all keys of the range share, beyond the nibbles already used |
| TrieHash.Hash256Rlp | aleth/libdevcore/TrieHash.cpp:27-79 | what is written for a range of the sorted map is the node of the tree that holds exactly that range, empty values included, canonical but for these |
| TrieHash.Hash256Aux | aleth/libdevcore/TrieHash.cpp:81-92 | the same node as a reference inside its parent, inlined under 32 bytes |
| TrieHash.BranchHolds | aleth/libdevcore/TrieHash.cpp:55-77 | a branch whose children hold the entries nibble by nibble holds the whole range |
| TrieHash.BranchTwoSlots | aleth/libdevcore/TrieHash.cpp:55-77 | entries that part right behind the shared nibbles put two slots to use |
| TrieHash.RunOf | aleth/libdevcore/TrieHash.cpp:62-71 | the inner loop finds exactly the run of entries that go on with a nibble |
| TrieRoots.Assign | aleth/libdevcore/TrieHash.cpp:99-101 | assigning into the sorted map keeps it sorted and updates exactly that key |
| TrieRoots.HexMap | aleth/libdevcore/TrieHash.cpp:99-101 | filling the sorted nibble map from the byte map, in any order, gives a sorted map with the same entries |
| TrieRoots.OneTree | aleth/libdevcore/TrieHash.cpp:94-105 | a map, empty values included, has one tree |
| TrieRoots.TreeOfExactly | aleth/libdevcore/TrieHash.cpp:94-105 | a tree is that of a map without empty values if and only if it is canonical and holds the map |
| TrieRoots.Rlp256 | aleth/libdevcore/TrieHash.cpp:94-105 | for any map of byte strings, empty values included, the result is the root node of the one tree of that map |
| TrieRoots.Hash256 | aleth/libdevcore/TrieHash.cpp:107-110 | the same for the root hash |
| TrieRoots.InsertionsBuild | aleth/libethcore/BlockHeader.cpp:235-258 | inserting entries one by one builds the tree of the map they fill, in any order, with repetitions and with empty values |
| TrieRoots.OneIndexTree | aleth/libdevcore/TrieHash.cpp:112-119 | a list has one tree |
| TrieRoots.SideBySide | aleth/libethcore/BlockHeader.cpp:235-258 | filling the stored incremental trie and the map of the batch builder with the same entries, in any order, with repetitions and with empty values, gives the same root, that of the one tree of the filled map; canonical if no value is empty |
| TrieRoots.OrderedTrieRoot | aleth/libdevcore/TrieHash.cpp:112-119 | the root hash of the one tree that maps rlp(j) to the j-th element and nothing else, empty elements included; canonical if there are none |
| TrieRoots.IndexKeysApart | aleth/libdevcore/TrieHash.cpp:112-119 | no index key is a prefix of another |
| TrieEntries.EntriesAscend | aleth/libdevcore/TrieDB.h:505-510 | the entries come in strictly ascending key order, so none comes twice |
| TrieEntries.EntriesComplete | aleth/libdevcore/TrieDB.h:505-510 | they are exactly the stored keys with their values |
| TrieEntries.FromSkips | aleth/libdevcore/TrieDB.h:530-666 | the descent for a lower bound leaves out exactly the entries below the key, and they are the first ones |
| TrieIterators.TrieIterator.Seek | aleth/libdevcore/TrieDB.h:530-765 | the outer loop stops at the first entry still to come and loses none; it terminates |
| TrieIterators.TrieIterator.Step | aleth/libdevcore/TrieDB.h:530-765 | each turn either stops at the first wanted entry or keeps the wanted entries and lowers the work left |
| TrieIterators.TrieIterator.Examine | aleth/libdevcore/TrieDB.h:638-664 | the inner loop passes empty slots and stops at a value, enters a child or leaves the branch |
| TrieIterators.TrieIterator.EnterPair | aleth/libdevcore/TrieDB.h:568-609 | a two-item node is skipped, stopped at or entered as its key compares with the one looked for |
| TrieIterators.TrieIterator.Next | aleth/libdevcore/TrieDB.h:668-765 | advancing drops the current entry and keeps all the others in order |
| TrieIterators.TrieIterator.At | aleth/libdevcore/TrieDB.h:519-528 | the current key, cropped of its flags, and the current value |
| TrieIterators.LowerBound | aleth/libdevcore/TrieDB.h:512-517 | the iterator stands at the first entry not below the key, with all the later ones still to come |
| TrieIterators.Begin | aleth/libdevcore/TrieDB.h:505-510 | the iterator starts with all entries still to come, and is at the end exactly for the empty trie |
| TrieIterators.Walk | aleth/libdevcore/TrieDB.h:505-510 | going from begin to end gives every entry exactly once in key order |
| EvmCode.NoneInside | aleth/libaleth-interpreter/VMOpt.cpp:62-89 | no instruction starts inside the operands of another |
| EvmCode.BoundaryRule | aleth/libaleth-interpreter/VMOpt.cpp:62-89 | instructions start at 0 and one behind the other, with up to 32 bytes of operands behind 60 to 7f, in which none starts |
| EvmCode.CopyRule | aleth/libaleth-interpreter/VMOpt.cpp:42-89 | the copy that is run, byte by byte, and where the jump destinations are |
| EvmCode.OptimisedRule | aleth/libaleth-interpreter/VMOpt.cpp:91-165 | the optimised copy, byte by byte |
| EvmCode.BinarySearch | aleth/libaleth-interpreter/VMCalls.cpp:86-100 | binary search finds exactly the members of a sorted table |
| EvmCode.Preparation.BuildTable | aleth/libaleth-interpreter/VMOpt.cpp:42-89 | the copied code is the code with synthetic instructions invalidated and zeros behind it; the table is strictly sorted and holds exactly the JUMPDEST bytes outside push data (Yellow Paper, section 9.4.3) |
| EvmCode.Preparation.VerifyJumpDest | aleth/libaleth-interpreter/VMCalls.cpp:86-100 | returns the destination exactly when a JUMPDEST instruction is there |
| EvmCode.Preparation.Stash | aleth/libaleth-interpreter/VMOpt.cpp:109-127 | the constant goes to the end of the pool, its offset cut to 16 bits and the bytes to skip into the operands |
| EvmCode.Preparation.DecodeConstant | aleth/libaleth-interpreter/VMOpt.cpp:103-107 | the loop reads the pushed bytes as one big-endian number |
| EvmCode.Preparation.ReplaceJump | aleth/libaleth-interpreter/VMOpt.cpp:131-157 | a jump becomes a pre-verified one exactly when the pushed destination is valid |
| EvmCode.Preparation.Optimise | aleth/libaleth-interpreter/VMOpt.cpp:53-165 | every instruction is rewritten as specified, operands and all, and the pool holds the pooled constants in code order |
| EvmCode.Preparation.OptimisePush | aleth/libaleth-interpreter/VMOpt.cpp:99-161 | one turn of the pass rewrites one push, and the jump behind it, as specified and leaves the rest |
| EvmCode.PoolSize | aleth/libaleth-interpreter/VMOpt.cpp:114-127 | each pooled constant accounts for at least seven bytes of code |
| EvmMetering.SmallMemory | aleth/libaleth-interpreter/VM.cpp:199-205 | a memory that costs less than 2^45 gas has fewer than 2^32 bytes |
| EvmMetering.ChargeConserves | aleth/libaleth-interpreter/VM.cpp:207-229 | paying lowers gas and memory price together by exactly the instruction's own price, and the memory needed is there |
| EvmMetering.NoOverflow | aleth/libaleth-interpreter/VM.cpp:214-221 | the sums of the metering fit 64 bits |
| EvmArith.Exp256 | aleth/libaleth-interpreter/VMOpt.cpp:179-197 | squaring and multiplying with wrap-around computes the power modulo 2^256 |
| EvmLaws.PowerRule | aleth/libaleth-interpreter/VMOpt.cpp:179-197 | the power: 1 for 0, the base for 1, and sums of exponents become products |
| EvmLaws.ArithmeticRule | aleth/libaleth-interpreter/VM.cpp:550-594 | ADD, MUL, SUB and EXP push the sum, product, difference and power of the two topmost words modulo 2^256 |
| EvmLaws.StackRule | aleth/libaleth-interpreter/VM.cpp:1280-1408 | POP drops the top, DUP copies the n-th word, PC, MSIZE and GAS push the counter, the size of the memory and the gas left after paying, JUMPDEST nothing |
| EvmLaws.SwapRule | aleth/libaleth-interpreter/VM.cpp:1310-1333 | SWAP exchanges the top and the n-th word below and no others |
| EvmLaws.PushRule | aleth/libaleth-interpreter/VM.cpp:1177-1230 | PUSH pushes the number in the bytes behind it, the first one the most significant, zeros behind the end of the code, and goes on behind them |
| EvmLaws.PushedRule | aleth/libaleth-interpreter/VMOpt.cpp:91-107 | the constant that the preparation reads is that number |
| EvmLaws.PushConstantRule | aleth/libaleth-interpreter/VM.cpp:1156-1175 | PUSHC pushes the constant at a two-byte offset and skips the bytes the fourth one says |
| EvmLaws.LoadRule | aleth/libaleth-interpreter/VM.cpp:407-415 | MLOAD pushes the 32 bytes at the offset, the first one the most significant |
| EvmLaws.StoreRule | aleth/libaleth-interpreter/VM.cpp:417-425 | MSTORE writes the word in that order and touches no other byte |
| EvmLaws.StoreByteRule | aleth/libaleth-interpreter/VM.cpp:427-435 | MSTORE8 writes the least significant byte |
| EvmLaws.StoreThenLoad | aleth/libaleth-interpreter/VM.cpp:407-425 | MLOAD right after MSTORE at the same offset gives the word stored; every other byte of memory is as it was |
| EvmLaws.CopyRule | aleth/libaleth-interpreter/VM.cpp:997-1048 | CALLDATACOPY, CODECOPY and RETURNDATACOPY, byte by byte: the source's bytes, zeros behind its end, nothing else |
| EvmLaws.CodeCopyRule | aleth/libaleth-interpreter/VM.cpp:1050-1072 | EXTCODECOPY byte by byte |
| EvmLaws.HashAndLogRule | aleth/libaleth-interpreter/VM.cpp:437-548 | SHA3 and the logs take their words and pay for the memory they read |
| EvmLaws.JumpRule | aleth/libaleth-interpreter/VM.cpp:1232-1249 | a paid JUMP, or JUMPI with a non-zero condition, goes to the destination if it is a JUMPDEST instruction and throws otherwise; with condition zero JUMPI goes on behind, whatever the destination |
| EvmLaws.PreVerifiedJumpRule | aleth/libaleth-interpreter/VM.cpp:1251-1278 | JUMPC and JUMPCI: the same condition, and the destination as it lies on the stack |
| EvmLaws.InvariantLands | aleth/libaleth-interpreter/VM.cpp:1251-1278 | in a state with the invariant that destination is uncut and a JUMPDEST instruction |
| EvmLaws.CallRule | aleth/libaleth-interpreter/VMCalls.cpp:150-280 | a call that is entered: the flag of success, the output as far as there is room, the gas not handed over and what the callee left |
| EvmLaws.KeptRule | aleth/libaleth-interpreter/VMCalls.cpp:244-258 | what the caller keeps: since Tangerine Whistle at least a 64th, rounded down, of what it had, else exactly what it did not ask for |
| EvmLaws.RefusedCallRule | aleth/libaleth-interpreter/VMCalls.cpp:168-178 | a call not entered for want of balance or depth pushes 0 and gives the gas back, the stipend on top |
| EvmLaws.CreateRule | aleth/libaleth-interpreter/VMCalls.cpp:86-145 | CREATE and CREATE2: the address or 0, and since Tangerine Whistle a 64th of the gas kept |
| EvmLaws.HaltRule | aleth/libaleth-interpreter/VM.cpp:334-400 | STOP, also behind the end of the code, RETURN, REVERT and SUICIDE: the gas left and the bytes of the output |
| EvmLaws.OtherRule | aleth/libaleth-interpreter/VM.cpp:1336-1346 | the other instructions pop and push as the table says |
| EvmRuns.StepConserves | aleth/libaleth-interpreter/VM.cpp:207-229 | no step lets remaining gas plus the price of the memory grow, calls with stipend included, and every step that goes on lowers the gas |
| EvmReference.ExponentRule | aleth/libaleth-interpreter/VM.cpp:550-561 | the bytes in use of an exponent |
| EvmReference.PriceMeans | aleth/libaleth-interpreter/VM.cpp:407-594 | every price the source computes is that of the Yellow Paper, Appendix G, and where it gives up the price or the memory is beyond 2^63 |
| EvmReference.TooMuchMemory | aleth/libaleth-interpreter/VM.cpp:199-204 | memory of 2^63 bytes costs more than there can be gas |
| EvmReference.PaymentExact | aleth/libaleth-interpreter/VM.cpp:206-229 | an instruction pays its price and that of the memory it grows, in unbounded numbers, or it cannot pay: the 63-bit cut-offs make no difference |
| EvmReference.VerdictExactly | aleth/libaleth-interpreter/VM.cpp:287-1417 | a step throws exactly in the cases of the Yellow Paper, section 9.4.2, with prices in unbounded numbers, and each with its own error |
| EvmReference.SolventOn | aleth/libaleth-interpreter/VM.cpp:206-229 | the bound this needs, less than 2^63 of gas and memory together, is kept by every step |
| EvmRuns.RunConserves | aleth/libaleth-interpreter/VMCalls.cpp:107-295 | the same along every run, calls with stipend, copies of foreign code and SUICIDE included; and a run cannot be longer than its gas |
| EvmRuns.RunEnds | aleth/libaleth-interpreter/VM.cpp:207-212 | with as many steps as there is gas no run is still going |
| EvmRuns.MemoryStaysSmall | aleth/libaleth-interpreter/VM.cpp:199-229 | starting below 2^45 gas, memory stays below 2^32 bytes |
| EvmRuns.OffsetsExact | aleth/libaleth-interpreter/VM.cpp:407-435 | so cutting a memory offset to 32 bits cuts nothing off and the access lies in the memory paid for |
| EvmRuns.PriceSane | aleth/libaleth-interpreter/VM.cpp:231-238 | no price the source computes overflows before it is charged |
| EvmRuns.ReadsInside | aleth/libaleth-interpreter/VMOpt.cpp:42-51 | fetches and push reads of the plain code stay inside the copy and its 33 zero bytes, and behind the end there is STOP |
| EvmRuns.PlainKeepsInv | aleth/libaleth-interpreter/VM.cpp:1177-1249 | the program counter stays on instruction boundaries, and before a pre-verifiable jump its valid destination lies on top of the stack |
| EvmRuns.PoolExact | aleth/libaleth-interpreter/VMOpt.cpp:114-127 | every constant fetched from the pool is the one pushed in the plain build if and only if each pool entry equals the one its 16-bit offset finds |
| EvmRuns.SmallCodeFaithful | aleth/libaleth-interpreter/VMOpt.cpp:114-127 | code of up to 458752 bytes has such a pool |
| EvmPool.AgreeExactly | aleth/libaleth-interpreter/VMOpt.cpp:109-127 | the two builds take the same step in every state with the invariant if and only if the pool is faithful |
| EvmPool.PooledSteps | aleth/libaleth-interpreter/VM.cpp:1156-1230 | at a pooled PUSH the plain build pushes the constant and the optimised one what its 16-bit offset finds, with the same price and the same next instruction |
| EvmPool.FarCodeDiffers | aleth/libaleth-interpreter/VMOpt.cpp:109-127 | code of 458766 bytes for which four steps from the start leave different numbers on the stack |
| EvmPool.LandsExactly | aleth/libaleth-interpreter/VMOpt.cpp:109-165 | every step of the optimised build stays on the instructions of the code, pre-verified jumps with their destinations, if and only if what is fetched for these jumps, cut to 64 bits, are destinations |
| EvmPool.JumpMisses | aleth/libaleth-interpreter/VM.cpp:1251-1278 | otherwise there is a state in which the plain build jumps to a destination and the optimised one to a place that is none |
| EvmPool.FarJumpMisses | aleth/libaleth-interpreter/VMOpt.cpp:109-165 | for example: the fifth step of that code jumps to the start of the code, which is no destination |
| EvmRuns.SameStep | aleth/libaleth-interpreter/VM.cpp:1156-1278 | in every reachable state the optimised code does exactly the step of the plain code |
| EvmRuns.SameUnpooled | aleth/libaleth-interpreter/VM.cpp:1156-1278 | wherever no constant is pooled the builds take the same step, whatever the pool |
| EvmRuns.SameRun | aleth/libaleth-interpreter/VMConfig.h:53-60 | the two builds run alike, for every code, input and sequence of host answers |
| EvmRuns.SameProgram | aleth/libaleth-interpreter/VM.cpp:264-282 | so they run alike from the start of the program |
| EvmRuns.FaithfulLands | aleth/libaleth-interpreter/VMOpt.cpp:109-127 | with a faithful pool what is fetched for a pre-verified jump is a destination |
| EvmRuns.StaysAligned | aleth/libaleth-interpreter/VM.cpp:1156-1278 | if what is fetched for pre-verified jumps are destinations, every step of the optimised build goes to an instruction of the code, and to pre-verified jumps with a destination on the stack |
| EvmRuns.RunStaysAligned | aleth/libaleth-interpreter/VM.cpp:264-282 | so does every run |
| EvmVm.Vm.AdjustStack | aleth/libaleth-interpreter/VM.cpp:186-197 | the stack pointers move as the metrics say; refused exactly on underflow or more than 1024 items |
| EvmVm.Vm.FetchInstruction | aleth/libaleth-interpreter/VM.cpp:240-250 | the instruction at the program counter, read inside the copy, with its price |
| EvmVm.Vm.UpdateGas | aleth/libaleth-interpreter/VM.cpp:214-221 | 64-bit sums give the exact price; refused exactly when it exceeds the gas or a part exceeds 63 bits |
| EvmVm.Vm.UpdateMem | aleth/libaleth-interpreter/VM.cpp:223-229 | memory grows to whole words exactly when it has been paid for |
| EvmVm.Vm.Pay | aleth/libaleth-interpreter/VM.cpp:207-229 | updateMem and updateIOGas together pay exactly the price of the metering rules, or throw |
| EvmVm.Vm.CasePush | aleth/libaleth-interpreter/VM.cpp:1156-1230 | PUSHn builds its number from the code, PUSHC takes it from the pool and skips the same bytes |
| EvmVm.Vm.CaseJump | aleth/libaleth-interpreter/VM.cpp:1232-1278 | JUMP and JUMPI go to verified destinations or throw, JUMPC and JUMPCI take the destination as it is |
| EvmVm.Vm.CaseStackOp | aleth/libaleth-interpreter/VM.cpp:1280-1333 | DUP and SWAP, and also POP, PC, MSIZE, GAS and JUMPDEST, do the step on the stack buffer that grows down |
| EvmVm.Vm.CaseArithmetic | aleth/libaleth-interpreter/VM.cpp:550-594 | ADD, MUL, SUB and EXP with the price of EXP by the bytes of the exponent |
| EvmVm.Vm.CaseMemory | aleth/libaleth-interpreter/VM.cpp:407-450 | MLOAD, MSTORE, MSTORE8, SHA3, LOG and the copies from input, code, return data and another account's code pay for the memory they touch, find it there, and change only that |
| EvmVm.Vm.CaseHalt | aleth/libaleth-interpreter/VM.cpp:334-400 | STOP, RETURN, REVERT and SUICIDE, with the price of SUICIDE by account and balance, end the run with the gas left and the output the step function says |
| EvmVm.Vm.CaseOther | aleth/libaleth-interpreter/VM.cpp:1336-1346 | an instruction whose result the host gives pays its price, pops and pushes as the metrics say |
| EvmVm.Vm.CopyDataToMemory | aleth/libaleth-interpreter/VMCalls.cpp:24-37 | copying leaves the bytes of the source, and zeros where it has none |
| EvmVm.Vm.CopyCode | aleth/libaleth-interpreter/VM.cpp:1050-1072 | what the account's code has from the offset on, then zeros; the rest of memory stays |
| EvmVm.Vm.CaseCall | aleth/libaleth-interpreter/VMCalls.cpp:169-295 | price, all-but-one-64th rule, stipend, balance and depth check, and the gas handed over and taken back |
| EvmVm.Vm.CaseCreate | aleth/libaleth-interpreter/VMCalls.cpp:107-167 | price with hashing, gas handed over and taken back, balance and depth check |
| EvmVm.Vm.StepOnce | aleth/libaleth-interpreter/VM.cpp:287-1417 | one instruction of either build does exactly the step of the prepared code, which is that of the plain code in the plain build and wherever the pool is faithful; going on, it lowers the gas and keeps the invariant, with the program counter on an instruction boundary |
| EvmVm.Vm.Exec | aleth/libaleth-interpreter/VM.cpp:264-282 | the loop ends, and its outcome is the run of the prepared code, which is that of the plain code in the plain build and wherever the pool is faithful |
| RangeMasks.NormalUnique | aleth/libdevcore/RangeMask.h:220-221 | the normal form of a set of numbers is unique |
| RangeMasks.RangeMask.AddRange | aleth/libdevcore/RangeMask.h:233-291 | adding an interval is set union, keeps the normal form and terminates |
| RangeMasks.RangeMask.UnionWith | aleth/libdevcore/RangeMask.h:102-109 | the union of two masks over the union of their ground ranges |
| RangeMasks.RangeMask.AddElement | aleth/libdevcore/RangeMask.h:115-121 | adding one element adds just that one |
| RangeMasks.RangeMask.Inverted | aleth/libdevcore/RangeMask.h:78-91 | the complement within the ground range, in normal form |
| RangeMasks.RangeMask.Invert | aleth/libdevcore/RangeMask.h:93-95 | the complement in place |
| RangeMasks.InvertedTwice | aleth/libdevcore/RangeMask.h:93-95 | inverting twice restores the very same mask |
| RangeMasks.RangeMask.Subtract | aleth/libdevcore/RangeMask.h:98 | exactly which numbers remain: set difference for equal ground ranges; a mask subtracted from itself through the same object stays as it is |
| RangeMasks.RangeMask.Lowest | aleth/libdevcore/RangeMask.h:65-72 | in 32-bit arithmetic: the given number of least elements, or all, unless the sum of a begin and the items left wraps around at an interval that is reached; then, and only then, the result is no valid mask |
| RangeMasks.GreatestCountOverruns | aleth/libdevcore/RangeMask.h:66-72 | the 32-bit maximum as a count breaks the mask of 5 to 9 |
| RangeMasks.RangeMask.Contains | aleth/libdevcore/RangeMask.h:123-129 | membership |
| RangeMasks.RangeMask.Size | aleth/libdevcore/RangeMask.h:194-201 | the number of elements |
| RangeMasks.RangeMask.Next | aleth/libdevcore/RangeMask.h:181-192 | the least element from the incremented number on, or the end, with the increment in 32 bits; that is the least element above the number if and only if the number is not the greatest one or the mask is empty |
| RangeMasks.RangeMask.NextOfGreatest | aleth/libdevcore/RangeMask.h:181-192 | for example: the number after the greatest one in the mask of 5 to 9 is 5, not the end |
| RangeMasks.RangeMask.Begin | aleth/libdevcore/RangeMask.h:173-179 | the least element, or the end of the ground range |
| RangeMasks.RangeMask.Iterate | aleth/libdevcore/RangeMask.h:157-180 | iteration gives every element once, ascending |
| GasLimits.AcceptedExactly | aleth/libethcore/SealEngine.cpp:108-123 | a header populated from a valid parent passes the verifier's gas limit bounds if and only if the parent's limit is at least the divisor (Yellow Paper, section 4.3.4) |
| GasLimits.BoundsRule | aleth/libethcore/SealEngine.cpp:108-123 | the verifier accepts a limit within the chain's bounds that differs from its parent's by less than the parent's share |
| GasLimits.LimitRule | aleth/libethcore/SealEngine.cpp:241-252 | the rule in plain numbers, for blocks that used gas as well |
| GasLimits.FullBlocksKeep | aleth/libethcore/SealEngine.cpp:241-252 | above the target a block at least five sixths full raises the limit |
| GasLimits.SmallParentRefused | aleth/libethcore/SealEngine.cpp:108-123 | for example: a parent limit of 1000 with divisor 1024 gives 1001, which is refused |
| GasLimits.BlockHeader.Populate | aleth/libethcore/SealEngine.cpp:34-39 | the new header's number, gas used and computed limit, which the verifier accepts exactly under that condition |
| GasLimits.Towards | aleth/libethcore/SealEngine.cpp:241-252 | each empty block moves the limit towards the target, never past it, and moves it at all exactly from twice the divisor on |
| GasLimits.Converges | aleth/libethcore/SealEngine.cpp:241-252 | from a limit of at least the divisor, empty blocks reach the target in at most as many steps as it is away, if the limit is at least twice the divisor and the target is above it or at least twice the divisor minus one |
| GasLimits.OnlyThen | aleth/libethcore/SealEngine.cpp:241-252 | and only under that condition, or when the target is there from the start |
| GasLimits.SmallLimitStays | aleth/libethcore/SealEngine.cpp:241-252 | for example: from 2000 with divisor 1024, no number of empty blocks reaches 3000 |

## Left out

- TrieStore.GenericTrieDB.Insert: where the store enforces counts, starts from exact ones, so insertions there after a reference was lost are not described; keys beyond 2^32-1 nibbles and values beyond 2^56 bytes are not covered.
- TrieStore.GenericTrieDB.Remove: starts from a canonical trie, so removals after an empty value that left another kind of trie are not covered; says nothing about the store after a removal that goes wrong, where the source throws, fails an assertion, reads memory outside the key, or edits a node that is not part of the trie; keys beyond 2^32-1 nibbles are not covered.
- TrieDelete.FaultsExactly: bytes of a digest have no nibbles in the model, so a string in the store whose hex-prefix key holds such bytes counts as one removal goes wrong on; no node of a trie is such a string.
- TrieStore.GenericTrieDB.SetRoot: a root whose nodes are not all there is only told apart by whether the root node itself is found.
- TrieStore.GenericTrieDB.LeftOvers: the debug output on the way is not modelled, nor are tries in which an extension leads to no branch, for which it throws; insertion builds none (`TrieCanonical.InsertJointed`), and removal keeps tries canonical.
- TrieStore.GenericTrieDB.Node: the stored string is decoded at once; the source keeps it and decodes lazily, item by item.
- TrieStore.GenericTrieDB.MergeAt: works on decoded items and nibble sequences; that encoder, decoder and nibble views agree with these is proved in Rlp, RlpStreams, RlpViews and HexPrefix.
- TrieIterators.TrieIterator.Seek: one loop stands for both overloads of next, the second being the search for the empty key; the field m_that at the end and the branch for corrupt tries, which cannot be reached here, are left out.
- TrieIterators.TrieIterator.At: keys of an odd number of nibbles are excluded, as the assertion in the source does.
- TrieRoots.OrderedTrieRoot: the overload for byte references differs only in copying.
- TrieHash.Hash256Rlp: keys keep within 2^32-1 nibbles, so that the 32-bit counters do not wrap.
- TrieSession.Session.Run: one trie per store; nodes shared by several tries in one store are not modelled.
- NodeStore.OverlayDB.Commit: the write succeeds at once; retries and a failing disk are left out.
- RlpStreams.RlpStream.AppendRaw: the bytes are encodings of items, as the interface demands; appending fragments of an item with a count of zero is only used inside append.
- EvmCode.Preparation.VerifyJumpDest: code is shorter than 2^63 bytes.
- EvmVm.Vm.StepOnce: for the optimising build the object is only made for code with destinations for all pre-verified jumps (EvmRuns.Lands), because otherwise the program counter leaves the instructions of the code (`EvmPool.LandsExactly`); and code is shorter than 2^63 bytes.
- EvmVm.Vm.CaseOther: the other instructions (comparisons, bit operations, environment, storage) are a price, pops and a pushed word given by the host, which also says when they are refused; none of them touches memory, and each is settled by reading one case.
- EvmVm.Vm.CaseMemory: the word SHA3 pushes is the host's, and what a log emits is not recorded.
- EvmVm.Vm.CaseHalt: what SUICIDE does to accounts is left out.
- EvmVm.Vm.CaseCall: the input, sender, value and flags handed to the callee are not modelled, only its gas and its answer.
- EvmVm.Vm.CaseCreate: the same.
- EvmVm.Vm.Exec: the sequence of host answers is long enough for the gas; which fields of a result evmc_result carries on an error is left out.
- GasLimits.BlockHeader.Populate: difficulty, state root and the other header fields are left out, and limits stay below half of 2^256.
- GasLimits.AcceptedExactly: the parent's own limit is within the bounds of the chain; the bounds on extra data and the fork check of verify are left out.
- RangeMasks.RangeMask.AddRange: the intervals lie within the ground range, as the class demands, so no sum there overflows 32 bits.
- Key-value text, printing, extendAll, full, firstOut, lastIn, clear and reset of RangeMask: one line each.
- isInt, toInt, toHash and the other conversions of RLP, and copying an RLP with its cache.
- FatGenericTrieDB and the auxiliary entries of the stores, which keep the preimages of hashed keys.
- 32-bit overflow of reference counts, and guards against concurrent access.
- The order in which unordered maps are walked: loops over them pick any element.
- Keccak itself, and the other cryptography: the hash is ideal.
- Tracing, jump tables made of label addresses, and the kind of exception behind each stack error.
- calculateEthashDifficulty, seals, proof of work, networking, accounts, and the Python driver.
