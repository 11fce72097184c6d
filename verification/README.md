# Verified core of a blockchain library

A Dafny model of the self-contained cores of a Rust blockchain code base, with proofs of what they promise.

- **Block store** (`Storage*.dfy`): a tree of blocks in a volatile part (five trees) and a permanent, linear part (two
  files and an index). Values (`Store`) specify each transaction; the classes `BlockStore`, `PermanentStore` and
  `StorageIterator` hold the trees in fields, change them in place and are proved against these specifications. The main
  results are an invariant over all runs, the exact effect of pruning, the invisibility of every single write of a
  flush, and the exact conditions under which the ancestor queries and the iterator are right.
- **Multiverse** (`Multiverse.dfy`): garbage collection of ledger states with gaps that grow with age. References and
  pointers to states are live handles that are created, cloned and dropped in a run; their number is the count that
  decides whether a state survives.
- **Codecs**: base58 (`Base58.dfy`, for every alphabet of 2 to 256 distinct symbols), CRC-32 (`Crc32.dfy`, section 8 of
  RFC 1952) and ABOR (`Abor.dfy`).
- **Update governance** (`Settings.dfy`, `Update.dfy`): proposals, votes and epoch changes.
- **Rewards and tax** (`Rewards.dfy`): machine arithmetic with its rounding and its overflows. An overflow, which stops
  a checked build, is an error value here.
- **Persistent map** (`HamtBitmap.dfy`, `HamtNode.dfy`, `HamtMap.dfy`, `Hamt.dfy`, `HamtIter.dfy`): a hash array mapped
  trie refines a finite map over all runs and for every hash function; exactly when equal hashes make an operation
  panic; its iterator; and when its comparison is equality.
- **Unspent outputs** (`Words.dfy`, `Bitmap.dfy`, `SparseArray.dfy`, `FastSparseArray.dfy`, `Utxo.dfy`, `UtxoIter.dfy`):
  a stack of refinements from two 128-bit words to a ledger.

`Wrappers.dfy` and `Arithmetic.dfy` hold shared types and arithmetic. `dafny verify dfyconfig.toml` checks everything.

## Promises of callers

Block metadata passed to `PutBlock` is fresh, extends its parent by one (children of the root have length 0), and its
id is not the root id. A flush is asked for on a branch that descends from the last permanent block, with a positive
minimum. A header keeps one chain length in the multiverse and is not inserted again while a reference to it is live. A
transaction has between 1 and 254 outputs. Epoch changes go forward. These are the documented contracts or assertions of
the code.

## Where code and documentation differ

The model follows the code.

- `block_store.rs:627-635` pairs ids with chain lengths in opposite orders when it removes index entries, so all entries
  of the moved blocks survive but that of the middle one (`LeftoverEntries`). The invariant allows them, and
  `FlushTriggersWhen` shows one visible effect: a flush of exactly the minimum number of blocks depends on such a
  leftover.
- `block_store.rs:725-743`: a tag whose target has become permanent cannot be moved any more (`TagStuck`).
- `block_store.rs:366-431`: for the root id the reported distance is the chain length of the descendant, one less than
  the number of parent links (`RootDistance`).
- `iterator.rs:79`: an iterator of positive distance that starts in the permanent part and ends there, or on the first
  volatile length, does not yield its last block (`IteratorMissesLast`). `block_store.rs:642` says that an iterator of
  distance 0 is empty; it yields all permanent blocks above its target (`IteratorOverruns`). On the path of a stale
  branch it yields permanent blocks of another branch, and no error (`IteratorStrays`).
- `block_store.rs:196-231`: a read looks into the permanent part and then into the volatile part. A flush between the two
  makes it miss a stored block (`FlushBetweenLooks`); `ReadAcrossFlush` has the exact condition.
- `iterator.rs:97-102`: an iterator reads the blocks of ids that it gathered before. If a flush takes one of them first, the
  iteration ends there without an error (`IterateAcrossFlush`, `IterateAfterFlush`).
- `update.rs:108` compares the votes, which are distinct, with half the length of the list of leaders, to which
  `setting.rs:180-184` also adds a leader that is already there. So an accepted proposal can leave leaders
  whose votes alone never accept another one (`AddingLeaderTwice`, `RepeatedLeadersStop`).
- `base58.rs:8`: the index of an unknown symbol is said to be the index of the faulty byte; it is counted from the end of
  the leading ones (`DecodeFails`).
- `abor.rs:231`: the reader of a 32-bit number asks for two bytes and takes four; `abor.rs:186` reports the byte after an
  unknown tag (`ReadsOutOfBounds`). `abor.rs:112` says that an array holds up to 256 elements; the limit is 255
  items at all depths.
- `rewards.rs:205` and `rewards.rs:214` cut to 64 bits without an error. A halving ratio or a limit ratio above one is
  read without a check (`config.rs:493-510`, `config.rs:553-580`) and can get there (`DrawnWraps`, `LimitWraps`);
  `DrawnFitsWhen` and `ContributionIsLimited` have the exact conditions.
- `update.rs:113` adds two 32-bit epochs. A proposal may set an expiration with which the sum does not fit; the
  pass that accepts it stops at its next proposal that is not accepted (`LargestExpirationStops`).
- `imhamt/src/node/reference.rs:302` and the like assert that a collision on the way of a key has the hash of the key.
  That fails for keys whose hashes only begin alike, depending on the order of insertion (`CollisionFirstPanics`, `CollisionLastSucceeds`).
- `imhamt/src/hamt.rs:278-300`: a trie equals every larger trie with the same pairs and more, unless it is empty (`EqualWhen`).
- `rewards.rs:257-260`: a cut above what is left drops the rest instead of taxing it (`TaxConservesWhen`). Only a tax
  that is constructed directly gets there: `rewards.rs:84-88` rejects ratios above one when a tax is read.
- `utxo.rs:242-266`: removing no inputs fails on a missing transaction (`MultipleOfNone`).
- `utxo.rs:57-64`: a repeated index overwrites the output before it, whose value is gone (`AddedConserves`). An output
  with index 255 is stored, and the assertion of `utxo.rs:70` stops every attempt to spend it (`LargestIndexIsStuck`).
  Both need a direct call of `add`: the ledger numbers the outputs of a transaction by their positions.

## Model

| member | source | states |
|---|---|---|
| StorageRuns.ReachableConsistent | chain-storage/src/block_store.rs:660-830 | In every state that any sequence of put, tag, prune and flush reaches from an empty store: blocks and metadata have the same keys; each volatile block extends the root, a permanent or a volatile block by one; the two counters equal the numbers of children and of tags; no tag dangles; the length index lists every volatile block, with extras only for permanent blocks of that length; the permanent id index and length index are inverse; every tip is a leaf and every volatile leaf a tip |
| StorageRuns.ReachableTips | chain-storage/src/block_store.rs:293-343 | While no branch was stale at any prune, the tips are exactly the leaves of both parts |
| StorageRuns.PruneListsTopWhen | chain-storage/src/block_store.rs:305-343 | For any store: a prune keeps the last permanent block listed as a tip exactly unless a stale block at the next length hides it |
| StorageStaleRun.StaleBranchHidesTop | chain-storage/src/block_store.rs:318-340 | A run of eight operations (five puts, a flush, a put, a prune) with a stale branch, after which the last permanent block is a leaf but not a tip |
| StorageRuns.PermanentForever | chain-storage/src/permanent_store.rs:53-108 | Once a block is permanent, all later reads of its contents and metadata give the same answers |
| StorageRuns.NextKeepsBlock | chain-storage/src/block_store.rs:161-343 | Whatever an operation does not remove keeps its contents, id, parent and chain length |
| StorageRuns.PruneSpares | chain-storage/src/block_store.rs:293-343 | A prune never removes a tagged block or a block that still has a child |
| StorageRuns.TagStuck | chain-storage/src/block_store.rs:725-743 | A tag on a permanent block can never be moved again in any continuation of a run |
| StorageRuns.TagResolves | chain-storage/src/block_store.rs:258-273 | In every run a tag that was set resolves to its block until the next successful setting of the same tag |
| StorageRuns.PutIsFound | chain-storage/src/block_store.rs:161-206 | In every run a block that was put is found with its contents, id, parent and chain length as long as no prune removes it |
| StoragePut.PutBlockConsistent | chain-storage/src/block_store.rs:161-190 | Putting a block succeeds exactly if its id is new and its parent is the root or a stored block, and then keeps the whole invariant; the error otherwise |
| StoragePut.PutBlockReads | chain-storage/src/block_store.rs:161-190 | A block that was put is read back with its contents and metadata |
| StoragePut.PutTagOutcome | chain-storage/src/block_store.rs:713-746 | Setting a tag succeeds exactly if the target exists and the current target, if any, is still volatile; a missing target and a current target that is not volatile give their errors |
| StoragePut.PutTagSets | chain-storage/src/block_store.rs:713-746 | After a success the tag resolves to the target, every other tag to its block, and besides only tag counters change |
| StoragePut.PutTagConsistent | chain-storage/src/block_store.rs:713-746 | Moving a tag keeps the reference counters equal to the numbers of tags |
| StoragePrune.FreeRunIsLongest | chain-storage/src/block_store.rs:293-343 | The run of blocks that a prune takes is the longest one above the tip in which each block is volatile, untagged and has no child outside the run |
| StoragePrune.RemoveTipOutcome | chain-storage/src/block_store.rs:750-830 | What one removal round reports: done, the next tip, or the permanent block it hit |
| StoragePrune.RemoveTipEffect | chain-storage/src/block_store.rs:750-830 | One round on a leaf never fails and removes exactly that leaf, or nothing if it is tagged |
| StoragePrune.RemoveTipsRemovesRun | chain-storage/src/block_store.rs:302-316 | The loop terminates without error, removes exactly the longest free run, keeps everything else and the invariant |
| StoragePrune.PruneBranchRemovesRun | chain-storage/src/block_store.rs:293-343 | Pruning fails exactly on ids that are no tips; otherwise it removes exactly the longest free run |
| StoragePrune.ListPermanentTipEffect | chain-storage/src/block_store.rs:318-340 | The permanent block below a pruned branch becomes a tip exactly if nothing is stored one length above it |
| StorageFlush.FlushedConsistent | chain-storage/src/block_store.rs:592-635 | A flush keeps the invariant, although it pairs ids and lengths in opposite orders and so leaves index entries behind |
| StorageFlush.FlushedConsistentWhen | chain-storage/src/block_store.rs:534-638 | A flush keeps the store consistent exactly if its branch descends from the last permanent block, as callers have to ensure |
| StorageFlush.MidFlushInvisible | chain-storage/src/block_store.rs:592-635 | Between any two writes of a flush, every read of a block and of its id, parent and chain length that sees one state gives the answer it gave before the flush |
| StorageFlush.ReadAcrossFlush | chain-storage/src/block_store.rs:196-231 | A read whose permanent and volatile lookups see two states of a flush answers as before exactly unless the block was volatile, is not indexed at the first lookup, and is removed at the second; then it is not found |
| StorageFlush.FlushBetweenLooks | chain-storage/src/block_store.rs:196-231 | A flush that happens between the two lookups hides each block it moves, although the block is found before and after |
| StorageFlush.FlushTriggersWhen | chain-storage/src/block_store.rs:552-590 | A flush goes ahead with more than the minimum number of blocks, never with fewer, and with exactly that number only if the index still has an entry just below the branch |
| StorageFlush.LeftoverEntries | chain-storage/src/block_store.rs:592-635 | A flush removes from the length index only the entry of the middle block of its branch, if there is one; all other entries stay |
| StorageAncestry.NthAncestorCorrectWhen | chain-storage/src/block_store.rs:435-469 | The answer is the block found by following parent links exactly unless the target length lies between the fork of the path and the last permanent length |
| StorageAncestry.NthAncestorAlwaysCorrect | chain-storage/src/block_store.rs:435-469 | The query is right for all blocks and distances exactly while there is no stale branch |
| StorageAncestry.AncestorDistanceCorrectWhen | chain-storage/src/block_store.rs:366-431 | For stored blocks the answer and its distance agree with following parent links exactly unless one of the two shortcuts meets a stale branch |
| StorageAncestry.AncestorDistanceCorrect | chain-storage/src/block_store.rs:366-431 | Without a stale branch the answer always agrees with following parent links |
| StorageAncestry.RootDistance | chain-storage/src/block_store.rs:366-431 | For the root id the query reports the chain length of the descendant, which is one less than the number of parent links to the root id |
| StorageAncestry.LowestCommonAncestorCorrectWhen | chain-storage/src/block_store.rs:474-532 | For any store and any two blocks: the result is a common ancestor of maximal chain length, or none if there is none, exactly if both are permanent; or the permanent one lies below the fork of the volatile one; or the shorter of two volatile ones lies above the permanent part, or forks no later than the other and shares no volatile ancestor with it |
| StorageAncestry.LowestCommonAncestorFound | chain-storage/src/block_store.rs:474-532 | Without a stale branch the result is always right |
| StorageAncestry.LowestCommonAncestorAlwaysCorrect | chain-storage/src/block_store.rs:474-532 | The query is right for all pairs exactly while there is no stale branch |
| StorageAncestry.MeetIsLowest | chain-storage/src/block_store.rs:508-531 | Going down in lockstep from two blocks of equal length ends at their lowest common ancestor |
| StorageAncestry.QueryErrors | chain-storage/src/block_store.rs:366-532 | The three queries fail exactly on unknown blocks, and the n-th ancestor also on distances below the root, each with its error |
| StorageAncestry.CommonAncestorReported | chain-storage/src/block_store.rs:474-532 | What is reported of the common ancestor is its stored metadata |
| StorageBlockStore.PermanentStore.PutBlocks | chain-storage/src/permanent_store.rs:129-156 | Appends to both files, then inserts the ids; lists the state after each single write |
| StorageBlockStore.BlockStore.PutBlock | chain-storage/src/block_store.rs:161-190 | In place, equals the specified step; changes nothing on error |
| StorageBlockStore.BlockStore.PutTag | chain-storage/src/block_store.rs:258-273 | In place, equals the specified step; changes nothing on error |
| StorageBlockStore.BlockStore.PruneBranch | chain-storage/src/block_store.rs:293-343 | In place, equals the specified step; changes nothing on error |
| StorageBlockStore.BlockStore.FlushToPermanentStore | chain-storage/src/block_store.rs:552-638 | Moves the whole branch and returns its length, or does nothing; readers see no difference in any of the states between its 2 + 4n writes |
| StorageBlockStore.BlockStore.GetNthAncestor | chain-storage/src/block_store.rs:435-469 | The walk with its permanent shortcut computes the specified answer |
| StorageBlockStore.BlockStore.IsAncestorOf | chain-storage/src/block_store.rs:366-431 | The walk with its shortcuts computes the specified answer; no consistency error |
| StorageBlockStore.BlockStore.FindLowestCommonAncestor | chain-storage/src/block_store.rs:474-532 | The walk computes the specified answer; no consistency error |
| StorageIterator.IteratorComplete | chain-storage/src/iterator.rs:24-106 | For any store the iterator yields exactly the requested path in ascending chain length, exactly if it starts in the volatile part, or it ends above the first volatile length and the permanent blocks it passes have the contents of the path |
| StorageIterator.IteratorCompleteUnlessStale | chain-storage/src/iterator.rs:24-106 | For a path that does not come from a stale branch: exactly if it starts in the volatile part or ends above the first volatile length |
| StorageIterator.IteratorStrays | chain-storage/src/iterator.rs:69-106 | On a stale path the iterator yields, without an error, the permanent block at each length above the fork, although the path has another block there |
| StorageIterator.IteratorMissesLast | chain-storage/src/iterator.rs:77-88 | For any store, starting in the permanent part and ending at most on the first volatile length with a positive distance: the last block is missing, and the others are yielded exactly if the permanent part has their contents |
| StorageIterator.IteratorOverruns | chain-storage/src/block_store.rs:640-657 | With distance zero, where nothing is promised to be yielded, the iterator yields nothing exactly if the permanent part has no block above the target, and all permanent blocks above it otherwise |
| StorageIterator.YieldedWhen | chain-storage/src/iterator.rs:97-102 | When each step of the volatile part sees a store of its own, what is yielded is a beginning of the path, and it ends at the first block that is gone by its step |
| StorageIterator.IterateAcrossFlush | chain-storage/src/iterator.rs:97-102 | While a flush goes on, the ids gathered before it yield the whole path exactly if every block is still volatile at its own step, although every block can be read at every step |
| StorageIterator.IterateAfterFlush | chain-storage/src/iterator.rs:97-102 | After a whole flush, the ids gathered before it yield nothing at all if the flush took the oldest block of the path, and the whole path otherwise |
| StorageIterator.StorageIterator.Next | chain-storage/src/iterator.rs:69-106 | Yields the first of the remaining blocks and never an error |
| StorageIterator.GatherBlocksIds | chain-storage/src/iterator.rs:109-144 | Collects the path down to a length; an error exactly if the path leaves the volatile part before |
| StorageIterator.Iterate | chain-storage/src/iterator.rs:24-66 | Where an iterator starts, and its errors |
| StorageIterator.StartErrors | chain-storage/src/iterator.rs:24-41 | An iterator cannot start exactly on unknown blocks and on distances that reach below the root, each with its error |
| Multiverse.KeptIsLogarithmic | chain-impl-mockchain/src/multiverse.rs:134-177 | If the gap rule keeps n lengths then depth * 2^(n-1) is below the longest length |
| Multiverse.DroppedInGap | chain-impl-mockchain/src/multiverse.rs:148-160 | A length that is not kept lies within half the remaining distance after a kept one |
| Multiverse.KeptWhen | chain-impl-mockchain/src/multiverse.rs:148-160 | A length below the threshold is kept exactly if it lies in no gap behind a kept one |
| Multiverse.GcDropsExactly | chain-impl-mockchain/src/multiverse.rs:128-178 | A collection drops a state exactly if it is deeper than the cut, its length is not kept, and no live reference or pointer to it is left; it makes the other states of such lengths collectable and leaves all other entries alone |
| Multiverse.LookupWhen | chain-impl-mockchain/src/multiverse.rs:94-102 | In every run a lookup answers exactly if the entry is retained or some reference or pointer to its state is live, and then with that state |
| Multiverse.AddPartitions | chain-impl-mockchain/src/multiverse.rs:110-119 | Inserting keeps the length index a partition of the keys exactly if the header has no other length |
| Multiverse.ReachableSound | chain-impl-mockchain/src/multiverse.rs:36-178 | Over all runs of inserting, looking up, cloning, dropping and collecting: the length index partitions the keys of the hash map, an address stands for one state, and every live reference agrees with the entry of its header |
| Multiverse.LiveRefIsFound | chain-impl-mockchain/src/multiverse.rs:36-102 | In every run the header of a live reference is found, with the very state it refers to |
| Multiverse.HeldRefIsFound | chain-impl-mockchain/src/multiverse.rs:36-178 | A reference that is not dropped keeps its state and is found through every later operation |
| Multiverse.InsertedIsFound | chain-impl-mockchain/src/multiverse.rs:110-178 | In every run an inserted state is found, also without any reference to it, until a collection takes its length or its header is inserted anew |
| Multiverse.NewHandles | chain-impl-mockchain/src/multiverse.rs:36-119 | Inserting and looking up by reference give a reference to the header; the other lookup and taking the state give a pointer to the same state |
| Multiverse.DeadStaysDead | chain-impl-mockchain/src/multiverse.rs:66-102 | A collectable state without references is never found again until its header is inserted anew |
| Multiverse.Multiverse.Insert | chain-impl-mockchain/src/multiverse.rs:110-119 | Allocates the state at an address not in use, adds the entry, lists it at its length and returns a live reference |
| Multiverse.Multiverse.Get | chain-impl-mockchain/src/multiverse.rs:94-97 | A pointer to the state, exactly if the lookup answers; the entry stays as it is |
| Multiverse.Multiverse.GetReference | chain-impl-mockchain/src/multiverse.rs:99-102 | A reference to the state, exactly if the lookup answers; the entry stays as it is |
| Multiverse.Multiverse.CollectEntry | chain-impl-mockchain/src/multiverse.rs:74-83 | Makes the entry weak and reports it as dead exactly if no reference is left |
| Multiverse.Multiverse.Gc | chain-impl-mockchain/src/multiverse.rs:128-178 | The scan terminates, meets no dangling entry and has the specified effect |
| Base58.DecodeEncode | cardano-legacy-address/src/base58.rs:105-173 | Decoding an encoding gives the bytes back exactly if there are any; the empty string becomes one zero byte |
| Base58.EncodeDecode | cardano-legacy-address/src/base58.rs:105-173 | Encoding a decoding gives the string back exactly unless it is empty or a single leading symbol, for every string over the alphabet |
| Base58.DecodeFails | cardano-legacy-address/src/base58.rs:138-150 | Decoding fails exactly on strings with a foreign character; the reported index is counted from the end of the leading symbols |
| Base58.AlphabetIsAlphabet | cardano-legacy-address/src/base58.rs:3 | The alphabet ascends and consists of the 58 digits and letters other than 0, I, O and l |
| Base58.EncodedKeepsNumber | cardano-legacy-address/src/base58.rs:105-136 | A text stands for the same number as the bytes it encodes |
| Base58.NumberOfFirst | cardano-legacy-address/src/base58.rs:105-173 | Both are read with the most significant digit first |
| Base58.MulAddDigits | cardano-legacy-address/src/base58.rs:110-121 | One round of the in-place base change turns the canonical digits of v into those of v * factor + carry |
| Base58.Round | cardano-legacy-address/src/base58.rs:112-121 | The loop over the digits computes that round, and no intermediate value exceeds 32 bits |
| Base58.BaseEncode | cardano-legacy-address/src/base58.rs:105-136 | Computes one leading symbol for each leading zero byte and then the digits of the number |
| Base58.BaseDecode | cardano-legacy-address/src/base58.rs:138-173 | Computes the bytes of the number with the zero bytes for the leading symbols, or the error |
| Crc32.TableIsDivision | cardano-legacy-address/src/crc32.rs:3-260 | Each of the 256 table entries is what eight steps of reflected division by 0xEDB88320 make of its index |
| Crc32.TableStepIsShift8 | cardano-legacy-address/src/crc32.rs:284-287 | One byte by table equals one byte bit by bit, for every state |
| Crc32.Crc32.Update | cardano-legacy-address/src/crc32.rs:280-290 | The state after any bytes is that of the bitwise division |
| Crc32.DividedConcat | cardano-legacy-address/src/crc32.rs:280-290 | Updating with two pieces equals updating with their concatenation |
| Crc32.ComputeCrc32 | cardano-legacy-address/src/crc32.rs:312-316 | The checksum of an input |
| Crc32.ChecksumIsComplement | cardano-legacy-address/src/crc32.rs:272-296 | For at least four bytes the checksum is the complement of the remainder of the message with its first four bytes complemented |
| Crc32.ShortChecksums | cardano-legacy-address/src/crc32.rs:312-316 | The checksums of no byte and of a single zero byte are 0 and 0xD202EF8D |
| Crc32.SameChecksumWhen | cardano-legacy-address/src/crc32.rs:312-316 | Messages of equal length have the same checksum exactly if the polynomial divides their difference |
| Crc32.DetectsOneByte | cardano-legacy-address/src/crc32.rs:312-316 | A change of one byte always changes the checksum |
| Abor.EncodedExactly | chain-ser/src/abor.rs:46-149 | A sequence of encoder calls finishes exactly if it is the call sequence of a tree within the size limits, and then the bytes are the recursive encoding of the tree with all sizes filled in |
| Abor.RunItems | chain-ser/src/abor.rs:79-144 | Writing items appends their encoding, counts the items at all depths, and leaves the open arrays alone |
| Abor.ClosedStruct | chain-ser/src/abor.rs:113-144 | Closing an array patches the placeholder with the number of items written since it was opened |
| Abor.EncodedNumber | chain-ser/src/abor.rs:79-101 | A number takes its tag and the value in 1, 2, 4, 8 or 16 bytes, the least significant first, and has to fit them |
| Abor.EncodedComposite | chain-ser/src/abor.rs:103-144 | Blocks and arrays take their tag, a byte for their size, and their contents; the size is at most 255, that of an array in items at all depths |
| Abor.DecodesExactly | chain-ser/src/abor.rs:173-282 | Decoding returns given values with the matching array sizes exactly if the input starts with their encoding |
| Abor.DecodeEncoding | chain-ser/src/abor.rs:208-282 | The matching calls return the values and sizes that were written and leave what follows |
| Abor.ReadsOutOfBounds | chain-ser/src/abor.rs:183-272 | A reader indexes out of bounds exactly if an unknown tag ends the input; the reader of a 32-bit number also if two or three bytes of the number are left |
| Abor.NumberErrors | chain-ser/src/abor.rs:183-262 | What the readers of numbers report at the end of the input, on unknown and on other tags, and on inputs that are too short |
| Abor.CompositeErrors | chain-ser/src/abor.rs:183-272 | The same for the readers of arrays and blocks, and for blocks whose contents are cut short |
| Abor.Decoder.ReadNumber | chain-ser/src/abor.rs:214-262 | Reads a number and advances the slice as specified, also on errors |
| Abor.Decoder.ReadBytes | chain-ser/src/abor.rs:264-272 | Reads a block and advances the slice as specified, also on errors |
| Abor.Decoder.ReadArray | chain-ser/src/abor.rs:208-212 | Reads an array size and advances the slice as specified, also on errors |
| Abor.WholeExactly | chain-ser/src/abor.rs:173-282 | Reading a message up to its end, with the array sizes it announces, succeeds exactly if the input is the encoding of the items read; with bytes after an encoding the end reports their number |
| Abor.EncodingIsPrefixFree | chain-ser/src/abor.rs:173-282 | Among messages of one shape no encoding is a proper prefix of another one, and different messages have different encodings |
| Settings.AppliedWhenValid | chain-impl-mockchain/src/setting.rs:148-210 | A list of changes applies exactly if it has none of the five read-only parameters and every coefficient is above 0 and at most 1, whatever the settings; the first bad parameter decides the error |
| Settings.LastParamDecides | chain-impl-mockchain/src/setting.rs:148-271 | In every field the last parameter for it decides; certificate fees win over later linear fees, and without a parameter of their own they are those of the last linear fees or stay as they were |
| Settings.LastMentionDecides | chain-impl-mockchain/src/setting.rs:177-198 | The last mention of a key decides whether it is a leader or a committee member; removing a leader leaves the committee member |
| Settings.ListsInOrder | chain-impl-mockchain/src/setting.rs:177-212 | Leaders and committee members keep order and multiplicity: first the old ones that no change removes, then the added ones that no later change removes |
| Settings.CoefficientInRange | chain-impl-mockchain/src/setting.rs:75-85 | The active slots coefficient never leaves (0, 1] |
| Settings.TryApply | chain-impl-mockchain/src/setting.rs:148-271 | The loop over the parameters computes the specified settings or error |
| Update.ApplyProposalWhen | chain-impl-mockchain/src/update.rs:20-48 | A proposal is stored exactly if its changes are valid, its proposer leads and its id is new |
| Update.OrderIsUnique | chain-impl-mockchain/src/update.rs:90-99 | There is exactly one order of proposals |
| Update.OrderIsByDate | chain-impl-mockchain/src/update.rs:90-99 | It is by epoch, slot and id |
| Update.ReachableValid | chain-impl-mockchain/src/update.rs:20-121 | In every reachable state every stored proposal applies to any settings, so that processing it cannot fail |
| Update.ProposalHistory | chain-impl-mockchain/src/update.rs:20-77 | Every stored proposal was made by a leader with valid changes, and its votes are exactly those cast for it by leaders since, each counted once |
| Update.QuorumsIntersect | chain-impl-mockchain/src/update.rs:108-116 | While the leaders stay the same, any two accepted proposals share a voter |
| Update.QuorumExistsWhen | chain-impl-mockchain/src/update.rs:108 | A list of leaders has a quorum exactly if its distinct leaders are more than half of its length |
| Update.RepeatedLeadersStop | chain-impl-mockchain/src/update.rs:108 | In every run under leaders without a quorum no proposal is ever accepted |
| Update.AddingLeaderTwice | chain-impl-mockchain/src/setting.rs:180-192 | A valid change that adds the only leader again leaves a list without a quorum |
| Update.EarlierProposalMatters | chain-impl-mockchain/src/update.rs:111-117 | A proposal can be accepted because an earlier one of the same pass removed a leader |
| Update.TurnDecides | chain-impl-mockchain/src/update.rs:105-122 | Under the settings in force at its turn a proposal stays exactly if at most half as many keys as there are leaders voted for it and its expiry is not before the epoch; exactly more votes apply its changes; exactly without them the expiry is computed and may overflow |
| Update.ProcessedInNumbers | chain-impl-mockchain/src/update.rs:79-130 | What a pass results in, in numbers of votes and leaders and in epochs: overflow, settings, and which proposals remain |
| Update.ProcessedIsStep | chain-impl-mockchain/src/update.rs:79-130 | What a pass leaves is a step of the runs that the other results are about |
| Update.ProcessProposals | chain-impl-mockchain/src/update.rs:79-130 | Neither application nor removal fails; the pass stops with an overflow exactly if, at its turn, a proposal that is not accepted has an expiry that does not fit 32 bits; otherwise the new settings are the fold of the accepted changes in order, and the rest remains with its votes |
| Update.LargestExpirationStops | chain-impl-mockchain/src/update.rs:108-117 | An accepted proposal that sets the largest expiration makes its own pass overflow at the next proposal |
| Rewards.ContributionByZone | chain-impl-mockchain/src/rewards.rs:171-178 | Nothing is contributed before the start epoch; from then on each epoch rate makes a zone, and without a limit all that is drawn is contributed |
| Rewards.LinearFalls | chain-impl-mockchain/src/rewards.rs:180-187 | The linear reward is the initial value less the floor of n * zone / d, down to zero; it overflows exactly if the product does not fit 64 bits |
| Rewards.AccumulatorBounds | chain-impl-mockchain/src/rewards.rs:187-205 | After k zones the accumulator is at most C * SCALE * (n/d)^k and short of it by less than the accumulated rounding, which is at most k for ratios of at most one |
| Rewards.DrawnIsFloor | chain-impl-mockchain/src/rewards.rs:187-205 | For any ratio whose result fits 64 bits the halving reward is at most the floor of C * (n/d)^k, and short of it by at most one and the scaled rounding; for ratios of at most one it always fits and is the floor or one less |
| Rewards.DrawnFitsWhen | chain-impl-mockchain/src/rewards.rs:205 | The conversion to 64 bits keeps the scaled accumulator exactly if it fits |
| Rewards.DrawnWraps | chain-impl-mockchain/src/rewards.rs:205 | Concrete parameters, accepted when read, for which 2^64 becomes 0 |
| Rewards.OneLessHappens | chain-impl-mockchain/src/rewards.rs:187-205 | Concrete parameters for which it is one less |
| Rewards.DrawnOverflowsWhen | chain-impl-mockchain/src/rewards.rs:194-201 | For any ratio the 128-bit product overflows from the first zone on, exactly if the largest product does not fit: the first one for ratios of at most one, the last one otherwise |
| Rewards.ContributionNeverGrows | chain-impl-mockchain/src/rewards.rs:168-216 | From the start epoch on the contribution never grows with the epoch |
| Rewards.ContributionIsLimited | chain-impl-mockchain/src/rewards.rs:208-216 | For any limit ratio the contribution is the lesser of the drawn value and the exact share exactly if the share fits 64 bits or what it is cut to is not below the drawn value; a limit of at most the whole stake always fits |
| Rewards.LimitWraps | chain-impl-mockchain/src/rewards.rs:214 | A limit ratio of 2^63 and a stake of two: nothing is contributed, whatever is drawn |
| Rewards.RewardsContributionCalculation | chain-impl-mockchain/src/rewards.rs:168-217 | The loop computes the specified contribution |
| Rewards.ScalingIsExact | chain-impl-mockchain/src/rewards.rs:240-246 | For any ratio scaling up and down around the division does not change the share |
| Rewards.TaxConserves | chain-impl-mockchain/src/rewards.rs:220-268 | With a ratio of at most one nothing is lost, and the cut is the exact share capped by the limit |
| Rewards.TaxConservesWhen | chain-impl-mockchain/src/rewards.rs:220-268 | For any ratio: the whole result; money is lost exactly if the cut exceeds what is left; the result is an overflow exactly if the scaled product does not fit |
| Rewards.TaxLoses | chain-impl-mockchain/src/rewards.rs:257-260 | Concrete values, constructed directly, for which money is lost |
| Rewards.TaxCut | chain-impl-mockchain/src/rewards.rs:220-268 | The steps compute the specified distribution, and the sums of values never overflow |
| Bitmap.RealIndexIsRank | sparse-array/src/bitmap.rs:50-64 | The real index of a member is the number of members below it, without truncation |
| Bitmap.FirstIndexIsLeast | sparse-array/src/bitmap.rs:66-82 | The first index is the least member, and there is none exactly for the empty set |
| Bitmap.SetIndexAdds | sparse-array/src/bitmap.rs:28-36 | Setting a bit adds one member |
| Bitmap.RemoveIndexRemoves | sparse-array/src/bitmap.rs:39-47 | Clearing a bit removes one member |
| Bitmap.GetIndexIsHas | sparse-array/src/bitmap.rs:17-25 | Testing a bit tests membership |
| SparseArrays.SetIsUpdate | sparse-array/src/sparse_array.rs:29-48 | Setting a value is the update of a map, and keeps one value per member at its rank |
| SparseArrays.RemoveIsRemoval | sparse-array/src/sparse_array.rs:50-63 | Removing an index removes the key and returns its value |
| SparseArrays.GetIsLookup | sparse-array/src/sparse_array.rs:23-27 | Reading is lookup; the unwrap cannot fail |
| SparseArrays.SparseArrayBuilder.Set | sparse-array/src/sparse_array.rs:104-113 | The builder updates the same map in place |
| SparseArrays.SparseArrayIter.Next | sparse-array/src/sparse_array.rs:137-151 | Yields the entry with the least key left |
| SparseArrays.EntriesAreTheMap | sparse-array/src/sparse_array.rs:137-151 | The entries yielded are exactly the map in ascending order of keys |
| FastSparseArrays.RunAgreesWithMap | sparse-array/src/fast.rs:26-75 | After any sequence of set, remove and shrink the array agrees with a plain map, stale values or not |
| FastSparseArrays.FastSparseArray.Set | sparse-array/src/fast.rs:34-40 | In place, the update of a map |
| FastSparseArrays.FastSparseArray.Remove | sparse-array/src/fast.rs:42-52 | In place, removes the key and returns its value |
| FastSparseArrays.FastSparseArray.Shrink | sparse-array/src/fast.rs:66-75 | Keeps the contents and leaves no stale value |
| FastSparseArrays.FastSparseArrayIter.Next | sparse-array/src/fast.rs:131-149 | Yields the entry with the least key left; the panic is unreachable |
| FastSparseArrays.FastSparseArrayBuilder.Set | sparse-array/src/fast.rs:104-107 | The builder updates the same map in place |
| HamtBitmap.SparsePosIsRank | imhamt/src/bitmap.rs:84-98 | The position of a child is the number of children below its index |
| HamtNode.PathIsHash | imhamt/src/hash.rs:23-29 | Hashes with the same indices on 13 levels are equal, so that two different ones part before their bits run out |
| HamtNode.LevelIndexIs | imhamt/src/hash.rs:23-29 | The index at level j is the j-th group of five bits from below |
| HamtMap.SetAtChanges | imhamt/src/node/reference.rs:192-202 | Adding a child changes the table of children at one index only |
| HamtMap.ClearAtChanges | imhamt/src/node/reference.rs:204-219 | Removing a child changes the table at one index only; nothing is left exactly if it was the last one |
| HamtMap.InsertEffect | imhamt/src/node/reference.rs:259-319 | At any node: an insertion panics exactly if the way of the hash ends at a collision of another hash, fails exactly if the key is there, and otherwise adds the pair, leaves all other lookups alone and keeps the trie sound |
| HamtMap.UpdateEffect | imhamt/src/node/reference.rs:451-495 | At any node: an update panics in the same cases, fails exactly if the key is missing or the callback refuses, and otherwise changes the lookup of its key as the callback says and no other |
| HamtMap.RemoveIsUpdate | imhamt/src/node/reference.rs:408-446 | Removing is updating with a callback that deletes |
| HamtMap.RemoveEqIsUpdate | imhamt/src/node/reference.rs:362-405 | Removing a matching value is updating with a callback that deletes this value and refuses others |
| HamtMap.ReplaceIsUpdate | imhamt/src/node/reference.rs:498-534 | Replacing is updating with a callback that returns the new value, and returns what a lookup found |
| HamtMap.ReplaceWithIsUpdate | imhamt/src/node/reference.rs:537-573 | Replacing by a function is updating with it |
| Hamt.ApplyAgrees | imhamt/src/hamt.rs:49-189 | Each of seven operations panics exactly if it is blocked by a collision of another hash; otherwise it does what it does to a finite map, errors included |
| Hamt.OutcomeOnMap | imhamt/src/hamt.rs:49-189 | Unless they panic: what inserting, removing, removing a match, updating and inserting or updating make of the map, with their errors, in terms of the callback |
| Hamt.ReplacedWith | imhamt/src/hamt.rs:113-124 | Unless it panics, replacing by a function changes the value of its key, which has to be there |
| Hamt.ReplaceReturnsOld | imhamt/src/hamt.rs:96-108 | Unless it panics, a replacement returns the value that the map had and the trie of the changed map, or fails exactly if the key is missing |
| Hamt.RunAgreesWithMap | imhamt/src/hamt.rs:31-189 | Over all runs, for every hash function, lookups agree with the finite map that the operations make |
| Hamt.PanicNeedsCollision | imhamt/src/node/reference.rs:301-305 | In every run, an operation that panics comes after operations on two other keys with one and the same other hash, which begins with the same five bits |
| Hamt.DistinctNeverPanics | imhamt/src/hamt.rs:31-189 | As long as the keys of the operations of a run have different hashes, none of them panics, and a trie is the plain map of the operations |
| Hamt.BlockedNeedsCollision | imhamt/src/node/reference.rs:301-305 | A blocked key needs two keys in the trie with one and the same other hash that begins like its own |
| Hamt.CollisionFirstPanics | imhamt/src/node/reference.rs:301-305 | Two keys with the same hash, inserted first, make every operation on a third key panic whose hash differs but has the same first five bits, even its removal, while a lookup finds nothing |
| Hamt.CollisionLastSucceeds | imhamt/src/node/reference.rs:270-299 | The same three keys inserted in another order: nothing panics |
| Hamt.Lookup | imhamt/src/hamt.rs:194-212 | The loop computes the specified lookup and ends |
| HamtIters.PairsAreTheMap | imhamt/src/hamt.rs:231-262 | The pairs of a trie are those of its map, each key once |
| HamtIters.HamtIter.Next | imhamt/src/hamt.rs:234-261 | Yields the first pair left, and ends when none is left |
| HamtIters.SizeRec | imhamt/src/node/reference.rs:575-585 | Counts the pairs below a node |
| HamtIters.Size | imhamt/src/hamt.rs:44-46 | The size of a trie is that of its map |
| HamtIters.Equal | imhamt/src/hamt.rs:278-300 | The loop compares in one direction |
| HamtIters.EqualWhen | imhamt/src/hamt.rs:277-300 | Tries compare equal exactly if the first map is part of the second and not empty unless the second is; so the comparison is equality exactly unless the first map is a non-empty proper part of the second |
| HamtIters.FromPairs | imhamt/src/hamt.rs:264-274 | Collecting keeps the first pair of each key; it can panic only if two different keys of the list have the same hash |
| HamtIters.FirstWinsAt | imhamt/src/hamt.rs:264-274 | The first pair of each key is kept |
| Utxo.RemovedSpends | chain-impl-mockchain/src/utxo.rs:225-240 | Removing succeeds exactly if the output is unspent and its index below 255, returns it, and takes away nothing else; no empty transaction stays; the error or failed assertion otherwise |
| Utxo.MultipleIsEach | chain-impl-mockchain/src/utxo.rs:242-266 | For non-empty lists removing several inputs succeeds exactly if removing them one by one does, with the same ledger and outputs |
| Utxo.MultipleOfNone | chain-impl-mockchain/src/utxo.rs:242-266 | For the empty list it still fails on a missing transaction |
| Utxo.MultipleFailsAt | chain-impl-mockchain/src/utxo.rs:242-266 | Removing several inputs fails exactly on a missing transaction, and at the first input whose index is 255, missing or removed before, with the error of that input |
| Utxo.MultipleConserves | chain-impl-mockchain/src/utxo.rs:242-266 | What is returned and what remains is what was there, in outputs and in value |
| Utxo.AddedConserves | chain-impl-mockchain/src/utxo.rs:211-222 | A new transaction adds its own outputs and nothing else; the total grows by all the value listed exactly if every output overwritten by a later one with its index is worth nothing |
| Utxo.RunConserves | chain-impl-mockchain/src/utxo.rs:211-266 | In every reachable ledger no transaction is empty, and all value ever listed is spent, unspent or was overwritten in its own list |
| Utxo.ListedValue | chain-impl-mockchain/src/utxo.rs:57-64 | The value stored for a list of outputs and the value overwritten make up the value of the list |
| Utxo.LargestIndexIsStuck | chain-impl-mockchain/src/utxo.rs:66-76 | An output with index 255 is stored and stays unspent in every continuation of a run |
| Utxo.FromOutputs | chain-impl-mockchain/src/utxo.rs:57-64 | The outputs of a transaction by index, later ones replacing earlier ones |
| Utxo.Add | chain-impl-mockchain/src/utxo.rs:211-222 | Fails exactly on known transactions; otherwise the listed outputs are those of the new transaction and no other transaction changes |
| Utxo.RemoveMultiple | chain-impl-mockchain/src/utxo.rs:242-266 | The loop computes the specified removal |
| UtxoIter.Iter.Next | chain-impl-mockchain/src/utxo.rs:171-194 | Yields the first entry left, transaction by transaction, and ends when none is left |
| UtxoIter.EntriesAreUnspent | chain-impl-mockchain/src/utxo.rs:171-194 | The entries of a ledger are exactly its unspent outputs |
| UtxoIter.EntriesAreDistinct | chain-impl-mockchain/src/utxo.rs:171-194 | No output is listed twice |

## Left out

- Block store: the widths of chain lengths and counters (32 bits), the serialization of the metadata, `sled`, the file system and threads; a tree is a map, a file a sequence, a transaction one atomic step. The tree a transaction works on is a copy that is committed at its end, so the removal rounds of a prune are functions on values.
- Block store: readers that run while another thread writes are covered for flushes only: lookups within one state between two writes, reads of blocks and metadata whose two lookups see different states, and the volatile part of an iteration. Ancestor queries that span several states are not, nor is an iteration that is still in the permanent part.
- Multiverse: the strong count of a state is the number of live handles to it, without weak counts and threads. The allocator of the class never reuses an address; runs may reuse one that no entry and no handle has. The panic on a missing entry is a proof obligation, not an outcome. The `Ledger` instance and the restoring of a state from storage are not part of this model.
- Base58: strings are sequences of characters; a character that takes several bytes in UTF-8 is one unknown symbol, and the index counts characters. The `u8` casts are proved lossless, not modelled as casts.
- ABOR: `usize` is unbounded. The five number methods are one operation with the tag as a parameter.
- Settings: parameters of the `evm` feature, default settings and the way back to a parameter list. Payloads that are only stored are abstract. Public keys stand for leaders and committee members alike.
- Update governance: an overflow of the expiry is an outcome, not a wrapped sum as in an unchecked build; in a run it leaves the proposals as they are. Proposal ids are numbers instead of 32-byte hashes; the order is the same. Signatures are checked elsewhere.
- Rewards: `Ratio::cmp`, the pool capping, and reading and writing of parameters. `ContributionNeverGrows` is about halving ratios of at most one, since larger ones make rewards grow.
- Persistent map: keys, values and the hash function are abstract, so that every hash function is covered; sharing of nodes between tries is not visible. An index that is not found is an option instead of the number 255. The panic for a node below the last level is proved unreachable and left out.
- Sparse arrays: `BitmapIndex` is a value, because the arrays own theirs; sharing through `Arc` is not visible. Words are numbers below 2^128 with bitwise operators defined bit by bit. The derived equality of fast arrays compares stale values and is not modelled.
- Utxo and update governance: a trie is a finite map, which the persistent map above refines as long as no operation panics; its iteration order is a list that has every transaction once. The `Values` iterator yields the outputs of `Iter` without their keys. `get` is the lookup of the two maps.
- Cryptography, voting tallies, address and certificate formats, the ledger and the network are not part of this model.
