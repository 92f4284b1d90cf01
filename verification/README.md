# A verified model of ExtraChain Core

ExtraChain Core is a node library: a timer turns pending transactions into a
chain of blocks, files are cut into fragments and stored through a fragment
table, messages wait in a cache file while the node is offline, and all of it
is framed in base64. This project models those parts in Dafny 4.11 and proves
what they keep. `dafny verify dfyconfig.toml` checks everything.

## What is modelled

- **Base64 and framing** (`Base64`, `LineBreaks`, `Framing`). A char is a byte;
  6-bit positions are computed on 16 bits and the cast back to `char` is an
  explicit truncation, proved to lose nothing. `None` is the decoder's
  exception. `Framing` is `Serialization::serialize` and `deserialize`, with
  `Block::addData` on top.
- **The offline queue** (`NetworkCache`, `QueueRuns`). The cache file is a byte
  string kept by a class; the environment says, package by package, which
  connections are active and which send type each peer has announced. The file
  is tied to a queue value, and runs are sequences of events.
- **Merkle root** (`Merkle`) over an arbitrary hash function, with the reads
  past the end of the vector made visible, and **reward arithmetic** (`Mining`)
  in exact real numbers, with the coefficient truncated as `operator*(long long)`
  does.
- **The fragment store** (`DiskFiles`, `FragmentTable`, `FragmentEdit`,
  `FragmentInsert`, `FragmentLayout`, `ArrivalOrder`, `ArrivalRuns`,
  `FileCutter`, `Delivery`).
  A file is edited section by section through a temporary copy; the table is a
  sequence of rows in primary-key order, which an insert may leave as it is. A
  table is a *layout* of a file when each row's `storedPos` is the sum of the
  sizes before it and the sizes add up to the file; it *tiles* the file when
  each row's `pos` is its `storedPos` too.
- **Block production** (`Blocks`, `BlockHash`, `Ledger`, `ChainModel`,
  `ChainInvariant`, `ChainRuns`, `ChainContents`, `GenesisLog`, `GenesisRows`,
  `Balances`, `BlockIndex`, `Blockchain`, `TransactionManager`, `Proving`,
  `Relink`). The classes `BlockIndex`, `CacheTable`, `Blockchain` and
  `TransactionManager` update their fields as the source does; their contracts tie each step to a function on a
  chain value, and the invariants are proved of that function over every run.
  Hash, transaction serialization and amount text are the functions of a
  `Codec`; `Faithful` says that transactions read back as written, that neither
  a digest nor a serialization is empty, that '-' before the text of an amount
  negates it, and that the text of zero reads as zero.

Statements about hashes assume no collision only on the finite set of strings
actually hashed for the two objects compared (an injective hash with digests of
one length does not exist).

## Where the code differs from its intent

The model follows the code. The lemmas named here say what comes of it, most of
them as an if-and-only-if.

- `sendMessage` caches a message only when no connection is active, but hands
  it only to active connections whose send type is All. With any other active
  peer alone, messages are neither sent nor cached, and a flush empties the
  cache file (`QueueRuns.NothingLostExactly`, `QueueRuns.SolePeerLosesQueue`).
  The type and the receiver of a message do not decide who gets it.
- A flush re-caches what finds no active connection at the end of the file, so
  a connection that comes back during it lets later messages overtake earlier
  ones; so does a message sent while others wait
  (`QueueRuns.FlushOrderExactly`, `QueueRuns.SubmitOrderExactly`,
  `QueueRuns.OrderExactly`).
- `initLocalFile` makes a row without `fragHash`, which the table's NOT NULL
  makes `INSERT OR IGNORE` skip: a local file has an empty table, and
  `applyChanges` never changes it (`FragmentEdit.LocalChangesApplyExactly`). The
  rows of a delivered file of more than one section carry a `pos` behind their
  `storedPos`, so there too no change inside the file applies
  (`Delivery.ChangesApplyExactly`).
- `moveRows` goes on with the row as it was read, so every later row but the
  first gets its predecessor's place: the table stays right if and only if all
  later rows but the last are empty (`FragmentLayout.InsertKeepsLayoutExactly`),
  and once wrong it stays wrong (`ArrivalRuns.AsWrittenExactly`).
- `insertFragment` reports success for an offset that is already in the table,
  although the table gets no row (`FragmentLayout.DuplicateKeepsLayoutExactly`).
- `removeFragment` does not move the later rows
  (`FragmentLayout.RemoveKeepsLayoutExactly`).
- `fetchFragments` sends the position after a fragment as its offset, so a last
  part of at most one section repeats the offset before it
  (`FileCutter.OffsetsDistinctExactly`). Delivered in order, a file of more than
  one full fragment and at most one more section arrives with its two parts
  swapped; every other size arrives whole (`Delivery.RebuiltSizes`).
- `addData` and `addRow` put no '|' between items: what was added reads back
  only if it was one item (`Framing.AddDataReadsBackAsOne`), and the rows of a
  genesis block survive only if there is one (`GenesisRows.RowsReadBackOnlyAlone`).
- An empty list serializes to a text that reads back as one empty item
  (`Framing.RoundTrip`).
- `splitListIntoPair` reads past the end on odd lengths, the length 1 included,
  so `rootMerkleHash` is defined only on powers of two from 2 on
  (`Merkle.RootMerkleHash`).
- `addProvedTransaction` pushes only what is already pending, so proving never
  makes a new transaction pending (`Proving.NothingNewBecomesPending`).
- `getUserBalance` adds what was received since the last genesis block and never
  subtracts what was sent; the rows of genesis blocks never count, because they
  read as zero. It agrees with the ledger if and only if the user sent nothing
  (`Balances.ReachableBalance`), so coins already spent are approved again
  (`Proving.SpentCoinsAreApprovedAgain`, `Proving.LedgerSolventExactly`).
- `proveTx` reads the balance of the transfer's token, but `checkPendingTxsList`
  adds up all tokens: with two tokens a transfer judged by one can overdraw the
  other (`Proving.TwoTokensFail`, `Proving.AlwaysSolventExactly`).
- `checkIntegrity` scans the stored blocks in memory mode and the memory's, of
  which there are none, in file mode (`Blockchain.Blockchain.CheckIntegrity`).
- A block's hash covers its index and transactions and nothing else, not
  `prevHash` either, and one transaction could stand for several if its text
  were two joined digests (`BlockHash.SameHashExactly`); the merge signs a block
  after retyping it, so its new hash covers the index alone
  (`Relink.MergedHashIgnoresPayload`).
- `calculateCoins` never returns when share and coefficient are not of one sign
  (`Mining.NeverEnds`).

## Model

| member | source | states |
|---|---|---|
| Base64.Base64Encode | sources/cpp-base64/base64.cpp:111-160 | the encoding loop computes the group-by-group encoding |
| Base64.EncodeGroupAt | sources/cpp-base64/base64.cpp:134-153 | one pass appends the four chars of its group, padded when bytes are missing |
| Base64.TailSextets | sources/cpp-base64/base64.cpp:144-150 | the tail's index expressions are the full ones with a zero byte |
| Base64.Base64Decode | sources/cpp-base64/base64.cpp:162-241 | the decoding loop computes the chunk-by-chunk decoding, newlines removed first on request, or throws |
| Base64.DecodeChunkAt | sources/cpp-base64/base64.cpp:207-235 | one pass emits one to three bytes or throws, also on a lone last char |
| Base64.PosOfCharInverts | sources/cpp-base64/base64.cpp:44-71 | pos_of_char inverts both alphabets, which contain no padding char |
| Base64.SextetsAreTheGroup | sources/cpp-base64/base64.cpp:134-141 | RFC 4648 section 4: the four positions are the 24 bits of the three bytes |
| Base64.DecodedBytesFit | sources/cpp-base64/base64.cpp:212-233 | no decoded byte is truncated by the cast to char |
| Base64.RoundTrip | sources/cpp-base64/base64.cpp:111-241 | decoding undoes encoding for every byte string and both alphabets |
| Base64.EncodeLength | sources/cpp-base64/base64.cpp:113 | the encoded length is 4 times the length over 3, rounded up |
| Base64.EncodeIsRfc4648 | sources/cpp-base64/base64.cpp:44-53 | every four characters are those that RFC 4648 gives for their three bytes, by its tables and with its padding, in either alphabet |
| Base64.EncodedChars | sources/cpp-base64/base64.cpp:44-53 | the standard form uses A-Z, a-z, 0-9, + and / with =, the URL form - and _ with . |
| Base64.TestVectors | sources/cpp-base64/base64.cpp:111-160 | the encodings of f, fo and foo of RFC 4648 section 10, and of a byte where the alphabets differ |
| Base64.DecodeAppend | sources/cpp-base64/base64.cpp:193-238 | after whole chunks decoding starts afresh, so joined encodings decode to joined bytes |
| Base64.EncodeAlphabet | sources/cpp-base64/base64.cpp:44-53 | every encoded char is from an alphabet or padding |
| Base64.UnpaddedDecodes | sources/cpp-base64/base64.cpp:55-71 | text without padding decodes if and only if all chars are known and no lone char is left |
| Base64.KnownChars | sources/cpp-base64/base64.cpp:55-71 | pos_of_char throws if and only if the char is in neither alphabet |
| LineBreaks.InsertLinebreaks | sources/cpp-base64/base64.cpp:73-89 | repeated insertion cuts the text into lines of the given length |
| LineBreaks.BreaksExactlyAtColumns | sources/cpp-base64/base64.cpp:81-86 | newlines stand exactly at the columns ending a full line and never at the end |
| LineBreaks.UnbreakBroken | sources/cpp-base64/base64.cpp:171-178 | removing the newlines restores the text |
| LineBreaks.EncodeWithLineBreaks | sources/cpp-base64/base64.cpp:91-94 | the text broken at a column length has a newline exactly at each full line and decodes back to the bytes |
| LineBreaks.EncodePem | sources/cpp-base64/base64.cpp:96-99 | lines of 64 characters |
| LineBreaks.EncodeMime | sources/cpp-base64/base64.cpp:101-104 | lines of 76 characters |
| Framing.Serialize | sources/utils/exc_utils.cpp:337-345 | items in base64, joined by bars |
| Framing.Deserialize | sources/utils/exc_utils.cpp:347-358 | split at bars, each part decoded, or the decoder's exception |
| Framing.RoundTrip | sources/utils/exc_utils.cpp:337-358 | a list reads back as itself if and only if it is not empty; the empty one reads back as one empty item |
| Framing.SerializedText | sources/utils/exc_utils.cpp:337-345 | a serialized list is standard base64 but for its bars, one fewer than items |
| Framing.NestedRoundTrip | sources/utils/exc_utils.cpp:337-358 | a list of lists reads back if and only if no inner list is empty |
| Framing.JoinedEncodingsDecode | sources/datastorage/block.cpp:157-161 | encodings written one after the other decode to the joined items |
| Framing.AddDataReadsBackAsOne | sources/datastorage/block.cpp:157-161 | items added to an empty payload read back as their concatenation, so as themselves only if there is one |
| NetworkCache.NetworkManager.constructor | headers/network/network_manager.h:72 | a node starts with nothing handed over and whatever cache file there is, which stands for a queue if and only if an earlier run wrote it |
| NetworkCache.NetworkManager.SaveToCache | sources/network/network_manager.cpp:265-310 | rewriting the file appends the packet to the queue it stands for |
| NetworkCache.NetworkManager.SendMessage | sources/network/network_manager.cpp:237-263 | cached if and only if no connection is active; otherwise handed to exactly the active connections of send type 0 (All), each once and in order, which may be none |
| NetworkCache.NetworkManager.CheckConnectionsStatus | sources/network/network_manager.cpp:154-168 | the cache file is replayed if and only if some connection is active |
| NetworkCache.NetworkManager.SendFromCache | sources/network/network_manager.cpp:312-345 | the replay treats each package by the connections of its turn: handed over or cached again, each in order |
| NetworkCache.SerializedHasNoSpace | sources/network/network_manager.cpp:297 | reading the file with operator>> stops nowhere before its end |
| NetworkCache.PackageReads | sources/network/network_manager.cpp:324-342 | each package reads back as the list of message, type as text and receiver; the item of an empty file has one field and is skipped |
| QueueRuns.FlushExactly | sources/network/network_manager.cpp:330-344 | a flush hands over, in order, the messages whose turn finds an active connection, each to exactly the takers of its turn, and caches the others again, in order |
| QueueRuns.Accounted | sources/network/network_manager.cpp:237-345 | over any run each message is sent, lost or cached, as often as it was submitted |
| QueueRuns.NothingLostExactly | sources/network/network_manager.cpp:237-262 | no message of a run is lost if and only if every turn with an active connection has one that takes messages |
| QueueRuns.ConservedExactly | sources/network/network_manager.cpp:237-345 | only on those runs are the sent and the cached messages all that was submitted |
| QueueRuns.SolePeerLosesQueue | sources/network/network_manager.cpp:258-262 | a sole active peer of another send type makes a flush lose the whole queue |
| QueueRuns.FlushOrderExactly | sources/network/network_manager.cpp:330-344 | a flush keeps the order of every queue of n messages if and only if none of its n turns loses one and no connection comes back |
| QueueRuns.ReturnSwapsTwo | sources/network/network_manager.cpp:330-344 | two messages change places when the connection comes back for the second |
| QueueRuns.SubmitOrderExactly | sources/network/network_manager.cpp:237-263 | a new message keeps the order if and only if it is cached, or it is sent and only messages equal to it wait |
| QueueRuns.FirstInFirstOut | sources/network/network_manager.cpp:237-345 | on orderly runs, sent followed by cached is what was submitted, in order |
| QueueRuns.OrderExactly | sources/network/network_manager.cpp:237-345 | with distinct messages, a run of any length ends in order if and only if it is orderly |
| Merkle.HashingElements | sources/utils/exc_utils.cpp:218-222 | every element is replaced by its own hash |
| Merkle.SplitListIntoPair | sources/utils/exc_utils.cpp:177-216 | even lengths give neighbouring pairs; every odd length reads past the end |
| Merkle.MerkleBlocks | sources/utils/exc_utils.cpp:150-158 | the loop hashes each pair into the next level |
| Merkle.RootMerkleHash | sources/utils/exc_utils.cpp:142-166 | terminates on every non-empty list, stays in bounds exactly for powers of two from 2 on, and then returns all levels and the tree's root |
| Merkle.PairUpKeepsRoot | sources/utils/exc_utils.cpp:142-166 | one round of bottom-up pairing keeps the root of top-down halving |
| Merkle.LevelsShrinkToRoot | sources/utils/exc_utils.cpp:159-165 | the levels have n/2, n/4, ..., 1 elements and end in the root |
| Merkle.LevelElement | sources/utils/exc_utils.cpp:150-158 | each element of a level is the hash of two joined neighbours on the level below |
| Merkle.RootBindsLeaves | sources/utils/exc_utils.cpp:224-226 | equal roots of equally many digests mean equal digests, if the strings hashed do not collide |
| Mining.CalculateCoins | sources/managers/data_mining_manager.cpp:31-49 | a zero amount gives 0 and any other reward is at least 1 |
| Mining.CoinsAreLeastDoubling | sources/managers/data_mining_manager.cpp:31-49 | the reward is the share times the truncated coefficient after the least number of doublings reaching 1 |
| Mining.RewardWrittenOut | sources/managers/data_mining_manager.cpp:39-47 | the reward is stored / total times supply / blocks times the integer part of the coefficient after k doublings, and fewer doublings give less than 1 |
| Mining.LeastEnoughIsUnique | sources/managers/data_mining_manager.cpp:43-47 | that number of doublings is unique, so the reward is determined |
| Mining.DoublingStep | sources/managers/data_mining_manager.cpp:43-46 | each doubling brings the recursion closer to its end |
| Mining.NeverEnds | sources/managers/data_mining_manager.cpp:43-46 | with share and coefficient not of one sign no number of doublings suffices |
| DiskFiles.CopySections | sources/datastorage/dfs/fragment_storage.cpp:298-311 | the sectioned loop copies everything from its start, for any positive section size |
| DiskFiles.DiskFile.Write | sources/datastorage/dfs/fragment_storage.cpp:280-340 | inserts the data at the position, past the end after zero bytes |
| DiskFiles.DiskFile.Remove | sources/datastorage/dfs/fragment_storage.cpp:350-400 | removes the range |
| DiskFiles.DiskFile.InsertDataChunk | sources/datastorage/dfs/dfs_controller.cpp:369-418 | inserts the data at the position |
| DiskFiles.DiskFile.RemoveDataChunk | sources/datastorage/dfs/dfs_controller.cpp:420-467 | removes the range |
| DiskFiles.SplicedAt | sources/datastorage/dfs/fragment_storage.cpp:280-340 | byte by byte, the file after an insertion, zero bytes past the old end |
| DiskFiles.RemovedAt | sources/datastorage/dfs/fragment_storage.cpp:350-400 | byte by byte, the file after a removal |
| DiskFiles.RemoveUndoesWrite | sources/datastorage/dfs/fragment_storage.cpp:280-400 | removing what was inserted restores the file if and only if the position was inside it |
| DiskFiles.WriteUndoesRemove | sources/datastorage/dfs/fragment_storage.cpp:280-400 | inserting what was removed restores the file |
| DiskFiles.ReplaceIsOverwrite | sources/datastorage/dfs/fragment_storage.cpp:157-168 | removing and writing equally many bytes overwrites them |
| FragmentTable.FileIsItsFragments | sources/datastorage/dfs/fragment_storage.cpp:36-42 | in a layout the file is its fragments joined in pos order |
| FragmentInsert.FragmentStorage.InitLocalFile | sources/datastorage/dfs/fragment_storage.cpp:26-29 | reports success and leaves the table as it was |
| FragmentInsert.FragmentStorage.InsertRow | sources/utils/db_connector.cpp:425-474 | a row without fragHash or with an existing pos is skipped without an error |
| FragmentInsert.FragmentStorage.WriteFragment | sources/datastorage/dfs/fragment_storage.cpp:253-265 | the bytes go before the next row's, to the end, or to the front |
| FragmentInsert.FragmentStorage.MoveRows | sources/datastorage/dfs/fragment_storage.cpp:267-278 | the recursion terminates; the next row is moved, each later one put where its predecessor was, plus the size |
| FragmentInsert.FragmentStorage.InsertFragment | sources/datastorage/dfs/fragment_storage.cpp:36-42 | the whole new table and file and the reported success, also for an offset that is already there |
| FragmentInsert.FragmentStorage.RemoveFragment | sources/datastorage/dfs/fragment_storage.cpp:86-103 | row and bytes go together; nothing happens without a row |
| FragmentInsert.FragmentStorage.ApplyChanges | sources/datastorage/dfs/fragment_storage.cpp:140-172 | on any table, the file after the rows found are applied in the order of the SELECT, up to a place that has wrapped around; on a table that tiles the file the range is overwritten |
| FragmentInsert.FragmentStorage.ApplyToRow | sources/datastorage/dfs/fragment_storage.cpp:152-168 | the removal and the write of each of the three cases |
| FragmentEdit.RowAppliedExactly | sources/datastorage/dfs/fragment_storage.cpp:152-168 | a row in the file, wherever it is stored, takes exactly its own part of the change |
| FragmentEdit.WholeAppliedExactly | sources/datastorage/dfs/fragment_storage.cpp:163-168 | a row that starts inside the range and ends with it takes the whole change, or throws where that starts before the file |
| FragmentEdit.TiledChangesApply | sources/datastorage/dfs/fragment_storage.cpp:140-172 | on a table that tiles the file any change overwrites its range as far as the file reaches, whatever the order of the rows |
| FragmentEdit.ShiftedChangesApplyExactly | sources/datastorage/dfs/fragment_storage.cpp:152-168 | when every pos lies behind its storedPos, changes of n bytes apply if and only if they start behind the file and hit no row |
| FragmentEdit.LocalChangesApplyExactly | sources/datastorage/dfs/fragment_storage.cpp:26-29 | on the empty table of a local file, changes apply if and only if they start behind the file |
| FragmentLayout.PlacedKeepsLayout | sources/datastorage/dfs/fragment_storage.cpp:267-278 | with every later row moved by its own distance, layout and fragments are kept |
| FragmentLayout.InsertKeepsLayoutExactly | sources/datastorage/dfs/fragment_storage.cpp:36-42 | as written, the layout is kept if and only if every later row but the last is empty, and then so is every fragment |
| FragmentLayout.BackwardArrivalBreaksLayout | sources/datastorage/dfs/fragment_storage.cpp:267-278 | three fragments arriving back to front leave a wrong table |
| FragmentLayout.DuplicateKeepsLayoutExactly | sources/datastorage/dfs/fragment_storage.cpp:36-42 | data for an offset already in the table keeps the layout if and only if it is empty, every later row but the last is, and so is the row itself if it is the first of several |
| FragmentLayout.RemoveKeepsLayoutExactly | sources/datastorage/dfs/fragment_storage.cpp:86-103 | a removal keeps the layout if and only if the fragment was empty or the last |
| ArrivalOrder.AnyOrderKeepsLayout | sources/datastorage/dfs/fragment_storage.cpp:36-42 | with the shift-each-row update, any order of arrival ends in a layout holding exactly what arrived |
| ArrivalOrder.HeldDeterminesStore | sources/datastorage/dfs/fragment_storage.cpp:36-42 | table and file are determined by the fragments held |
| ArrivalOrder.OrderDoesNotMatter | sources/datastorage/dfs/fragment_storage.cpp:36-42 | two orders of the same fragments end in the same table and file |
| ArrivalRuns.RunStaysWrong | sources/datastorage/dfs/fragment_storage.cpp:36-42 | a table with a first row out of place behind a non-empty one stays such a table over any run of inserts at new offsets |
| ArrivalRuns.AsWrittenExactly | sources/datastorage/dfs/fragment_storage.cpp:267-278 | over any run of arrivals at new offsets the code as written ends in a right table, and in that of the shift-each-row update, if and only if each arrival finds only empty rows, but the last, behind it |
| FileCutter.FetchFragments | sources/datastorage/dfs/dfs_controller.cpp:736-784 | terminates; nothing for an empty file, otherwise fragments whose data joins to the file: all but the last of the least whole number of sections above the maximum, with the position behind them as offset, and the last with the offset of its last section |
| FileCutter.CutIsUnique | sources/datastorage/dfs/dfs_controller.cpp:750-783 | no other list of fragments meets that description |
| FileCutter.CollectSections | sources/datastorage/dfs/dfs_controller.cpp:751-763 | the inner loop takes a full fragment, or the rest with the offset of its last section |
| FileCutter.DataJoinsToFile | sources/datastorage/dfs/dfs_controller.cpp:750-783 | the fragments' data joined in order is the file |
| FileCutter.OffsetsDistinctExactly | sources/datastorage/dfs/dfs_controller.cpp:755-769 | the offsets are distinct if and only if the last part is not a fragment of at most one section behind a full one |
| Delivery.DeliveryExactly | sources/datastorage/dfs/fragment_storage.cpp:253-265 | what in-order delivery into an empty file yields for every file; the table is right exactly when the offsets are distinct |
| Delivery.DistinctOffsetsRebuild | sources/datastorage/dfs/dfs_controller.cpp:736-784 | distinct offsets rebuild the file and its layout |
| Delivery.RebuiltSizes | sources/datastorage/dfs/dfs_controller.cpp:736-784 | every file of n bytes is rebuilt if and only if n is not within one section above a full fragment |
| Delivery.ChangesApplyExactly | sources/datastorage/dfs/fragment_storage.cpp:140-172 | a delivered file is tiled if and only if it is one section or less; changes of n bytes apply to it if and only if it is tiled, or they start behind it and hit no row |
| Blocks.ExtractConverted | sources/managers/tx_manager.cpp:134-140 | a data block made from pending transactions holds exactly these |
| Blocks.EmptyBlockIsEmpty | sources/datastorage/block.cpp:163-177 | an empty payload holds no transaction |
| Blocks.SameExactly | sources/datastorage/transaction.cpp:267-293 | transactions are equal when they differ at most in approver, producer, signature and type |
| Blocks.HexExactly | sources/utils/bignumber.cpp:246-259 | an id is written in lower-case hexadecimal digits without leading zeros |
| Blocks.HashWrittenOut | sources/datastorage/block.cpp:97-119 | the strings hashed for a block without, with one and with two transactions |
| Blocks.ComputeTxHash | sources/datastorage/block.cpp:108-119 | the loop computes the chained transaction hash |
| BlockHash.IndexTextInjective | sources/utils/bignumber.cpp:246-259 | different ids have different hexadecimal texts |
| BlockHash.TxHashExactly | sources/datastorage/block.cpp:113-117 | two lists have one chained hash if and only if they are equal or the first transaction of one is, as text, the two digests hashed for a front part of the other |
| BlockHash.TxHashBinds | sources/datastorage/block.cpp:113-117 | equal chained hashes mean equal transaction lists, when no first transaction equals two joined digests |
| BlockHash.SameHashExactly | sources/datastorage/block.cpp:97-119 | two signed blocks of any kind have one hash if and only if they have the same id and the same transactions, up to a first transaction that is, as text, the two digests hashed for a front part of the other list; if what was hashed does not collide |
| BlockHash.SameHashSameBlock | sources/datastorage/block.cpp:97-119 | two signed blocks have one hash if and only if they have the same id and transactions, when no first transaction equals two joined digests and what was hashed does not collide |
| BlockHash.OtherKindsHashOnlyIndex | sources/datastorage/block.cpp:163-165 | the hash of any other kind of block depends on its id alone |
| Ledger.CacheTable.Add | sources/datastorage/blockchain.cpp:158-178 | a first row is inserted with the given state, otherwise the state is updated |
| Ledger.CacheTable.SaveTxInfoInEC | sources/datastorage/blockchain.cpp:138-204 | every transaction of the payload is booked at sender and receiver, a first debit as its text reads |
| Ledger.BookingFollowsFlow | sources/datastorage/blockchain.cpp:155-203 | each state changes by received minus sent, for amounts that are not negative |
| Ledger.BookingConserves | sources/datastorage/blockchain.cpp:155-203 | booking keeps the total of every token, for amounts that are not negative |
| Ledger.FirstBooking | sources/datastorage/blockchain.cpp:155-203 | a first transfer makes a row of minus the amount for the sender and then one of the amount for the receiver |
| BlockIndex.BlockIndex.Add | sources/datastorage/index/blockindex.cpp:455-570 | saves a new id and keeps range and count; an existing file is left alone |
| BlockIndex.BlockIndex.RemoveById | sources/datastorage/index/blockindex.cpp:580-604 | everything from the id on is removed; range and count follow, also outside the range |
| BlockIndex.BlockIndex.RemoveDummyBlocks | sources/datastorage/index/blockindex.cpp:606-618 | terminates and leaves the chain without its dummy suffix |
| BlockIndex.BlockIndex.GetLastBlock | sources/datastorage/index/blockindex.cpp:59-74 | the non-empty block with the highest id |
| BlockIndex.BlockIndex.GetLastRealBlock | sources/datastorage/index/blockindex.cpp:76-89 | the last block that is not a dummy |
| BlockIndex.BlockIndex.FindGenesis | sources/datastorage/blockchain.cpp:430-437 | the walk back ends at the nearest genesis block |
| BlockIndex.BlockIndex.CheckIntegrity | sources/datastorage/blockchain.cpp:58-68 | the scan: 0 if and only if every block carries its predecessor's hash; otherwise the first id that fails |
| Blockchain.Blockchain.constructor | sources/managers/extrachain_node.cpp:99-107 | a new network is a chain of genesis block 0 with counter 0 |
| Blockchain.Blockchain.CreateGenesisBlock | sources/datastorage/blockchain.cpp:406-455 | one row per cached state, the table emptied, the nearest genesis block's hash named |
| Blockchain.Blockchain.AddBlock | sources/datastorage/blockchain.cpp:649-730 | block saved, payload booked, counter raised, and a genesis block on top of every hundredth; a negative id is refused |
| Blockchain.Blockchain.GetUserBalance | sources/datastorage/blockchain.cpp:878-909 | receipts since the last genesis block added to the first row extracted from it for the user |
| Blockchain.Blockchain.CheckIntegrity | sources/datastorage/blockchain.cpp:48-70 | 0 in file mode without looking at the stored blocks, and otherwise if and only if all their links hold; 0 in every state that keeps the invariant, with records being last minus first id plus 1 |
| TransactionManager.TransactionManager.AddVerifiedTx | sources/managers/tx_manager.cpp:93-96 | appends to the pending list |
| TransactionManager.TransactionManager.AddProvedTransaction | sources/managers/tx_manager.cpp:63-69 | pushed only when an equal one is pending; one equal received one is removed |
| TransactionManager.TransactionManager.RemoveUnApprovedTransaction | sources/managers/tx_manager.cpp:71-73 | exactly the first equal received transaction goes, the others keep their order |
| TransactionManager.TransactionManager.CheckPendingTxsList | sources/managers/tx_manager.cpp:142-154 | the net effect of the pending list on an actor: received minus sent, with transfers to itself as sent |
| Proving.PendingNetIsBooked | sources/managers/tx_manager.cpp:142-154 | it is what booking the pending list would change of the actor's state in the ledger, but for transfers to itself |
| TransactionManager.TransactionManager.ProveTx | sources/datastorage/blockchain.cpp:1122-1232 | both lists after every branch, by the decision on actors, amount and balance |
| TransactionManager.TransactionManager.MakeBlock | sources/managers/tx_manager.cpp:100-126 | one tick on the stored chain is one step of the chain value, clears the pending list and keeps the invariant, and the books when no amount is negative |
| ChainInvariant.AppendKeepsShape | sources/datastorage/block.cpp:65-81 | a fitting block keeps ids, links, kinds and genesis spacing |
| ChainInvariant.AddBlockKeepsShape | sources/datastorage/blockchain.cpp:714-727 | adding a block, with or without the genesis block on top, keeps shape and count |
| ChainInvariant.MakeBlockKeepsShape | sources/managers/tx_manager.cpp:100-126 | every tick keeps the shape, and the height above the last genesis block within the counter, below 100 |
| ChainRuns.MakeBlockViews | sources/managers/tx_manager.cpp:115-125 | a tick only extends the non-dummy blocks, and pending transactions become one new data block |
| ChainRuns.MakeBlockKeepsBooks | sources/datastorage/blockchain.cpp:688-691 | for amounts that are not negative, the cached states are received minus sent since the last genesis block, and every token's total is zero |
| ChainRuns.RunKeepsInv | sources/managers/tx_manager.cpp:100-126 | any run keeps the shape of the chain, never changes an earlier non-dummy block, and stores each batch once, in order |
| ChainRuns.RunKeepsBooks | sources/datastorage/blockchain.cpp:138-204 | any run of amounts that are not negative keeps the books |
| ChainRuns.Reachable | sources/managers/tx_manager.cpp:100-126 | in every state reachable from a new network the data blocks hold exactly the non-empty batches, in order |
| ChainRuns.ReachableIsIntact | sources/datastorage/index/blockindex.cpp:455-604 | in every reachable state ids run from 0, blocks are linked, no data block sits on a dummy block, and a scan for broken links returns 0 |
| ChainRuns.GenesisGaps | sources/datastorage/blockchain.cpp:428-447 | at most 100 blocks between neighbouring genesis blocks, the upper one naming the lower one's hash |
| ChainRuns.TickWithPendingEndsReal | sources/managers/tx_manager.cpp:115-125 | after a tick with pending transactions the tip is the data block, or a genesis block on it |
| ChainContents.MakeBlockKeepsDocumented | sources/datastorage/blockchain.cpp:438-451 | every tick keeps genuine hashes, dummy blocks naming the last real block below them, and genesis payloads of the logged rows |
| ChainContents.ReachableIsDocumented | sources/datastorage/blockchain.cpp:438-451 | the same in every state reachable from a new network |
| ChainModel.FirstGenesisWrittenOut | sources/datastorage/block.cpp:65-81 | genesis block 0 field by field |
| ChainModel.RowTextWrittenOut | headers/datastorage/genesis_block.h:53-61 | a genesis row is the list of actor, state, token and type 0 |
| ChainModel.RowsAppend | sources/datastorage/genesis_block.cpp:42-46 | each row is put behind the ones before it, with nothing between |
| GenesisLog.EveryHundredth | sources/datastorage/blockchain.cpp:714-727 | on a new network exactly every hundredth tick makes a genesis block |
| GenesisLog.MakeBlockKeepsLogged | sources/datastorage/blockchain.cpp:688-718 | whenever a tick makes a genesis block, the rows it is given are received minus sent over all data blocks since the genesis block before, the one just added included |
| GenesisLog.ReachableIsLogged | sources/datastorage/blockchain.cpp:438-446 | in every reachable state this holds of every later genesis block and the payload it carries |
| GenesisRows.ExtractDataRows | sources/datastorage/genesis_block.cpp:82-89 | every item of the payload read as a row: four parts make one, any other number the default row; or the exception of the decoder or of std::stoi |
| GenesisRows.RowsReadBackOnlyAlone | sources/datastorage/genesis_block.cpp:42-46 | extractDataRows finds a row that was added alone and otherwise one default row; the rows survive if and only if there is one and its ids and state read back |
| GenesisRows.SeparatedRowsReadBack | sources/datastorage/genesis_block.cpp:82-89 | a payload with bars between the rows would read back as all of them, in order |
| GenesisRows.StoiReadsDecimals | headers/datastorage/genesis_block.h:67 | which texts std::stoi reads as which number, and which make it throw |
| Balances.BalanceSplits | sources/datastorage/blockchain.cpp:878-909 | the balance is the last genesis block's row for the user plus the receipts above it |
| Balances.GenesisRowCounts | sources/datastorage/blockchain.cpp:886-895 | a single row that reads back counts in full for its actor, for every token |
| Balances.PayloadIsZero | sources/datastorage/genesis_block.cpp:42-46 | rows whose states cancel out for every token read back as zero for every actor |
| Balances.MakeBlockKeepsQuiet | sources/datastorage/blockchain.cpp:438-446 | every tick keeps this for all genesis blocks, and that all payloads decode |
| Balances.BalanceAgainstLedger | sources/datastorage/blockchain.cpp:878-909 | the balance is what was received since the last genesis block, exceeds the ledger's state by what was sent, and equals it if and only if nothing was sent |
| Balances.ReachableBalance | sources/datastorage/blockchain.cpp:878-909 | the same in every state reachable from a new network |
| Proving.RemovedOneIsFirst | sources/managers/tx_manager.cpp:68 | QList::removeOne drops the first equal element and keeps the others in order |
| Proving.StepExactly | sources/datastorage/blockchain.cpp:1196-1228 | after one proveTx step any actor is at or above zero if and only if no transfer of its own is pushed or its measured balance covers it |
| Proving.StepKeepsSolventExactly | sources/datastorage/blockchain.cpp:1196-1228 | one step judged by one balance keeps every actor but the first and the empty ids at or above zero in another if and only if that one covers the pushed transfer |
| Proving.ProveKeepsSolvent | sources/datastorage/blockchain.cpp:1196-1228 | one proveTx step on the root node keeps balance plus pending at or above zero for all but the first actor and the empty ids |
| Proving.AlwaysSolventExactly | sources/datastorage/blockchain.cpp:1196-1228 | over any sequence of steps with any mix of tokens, solvency in one token is kept throughout if and only if that token covers every push |
| Proving.ProvingKeepsSolvent | sources/datastorage/blockchain.cpp:1122-1232 | any sequence of proveTx steps on ordinary transfers of one token keeps it |
| Proving.TwoTokensFail | sources/managers/tx_manager.cpp:142-154 | on a new network a transfer judged by one token overdraws the other |
| Proving.JudgedExactly | sources/datastorage/blockchain.cpp:1122-1232 | for every transaction, rewards included, and on every node: when it is approved and with which approver and signature, when it is left alone, and when rejected |
| Proving.ListsAfterExactly | sources/managers/tx_manager.cpp:63-73 | the pending and the received list after each decision |
| Proving.NothingNewBecomesPending | sources/managers/tx_manager.cpp:63-69 | everything pending after proving equals something pending before |
| Proving.CommitKeepsSolvent | sources/datastorage/blockchain.cpp:878-909 | after every tick, with or without a genesis block on top, every actor is at or above zero in every token |
| Proving.LedgerSolventExactly | sources/datastorage/blockchain.cpp:1196-1222 | one step keeps the ledger's states at or above zero if and only if the pushed transfer is covered by the balance less what the sender has sent |
| Proving.SpentCoinsAreApprovedAgain | sources/datastorage/blockchain.cpp:1202-1222 | on a new network an actor whose state is negative is approved to send again |
| Relink.RelinkBlocks | sources/datastorage/blockchain.cpp:503-514 | the loop computes the relinked run |
| Relink.MergeRelinks | sources/datastorage/blockchain.cpp:503-514 | the blocks above the replaced one are linked from the merged block to the tip and signed anew over their own contents, ids and payloads unchanged |
| Relink.MergeOfSelfLinked | sources/datastorage/blockchain.cpp:556-567 | a replaced block that carries its own hash is moved itself, and the others are linked from it |
| Relink.MergedHashIgnoresPayload | sources/datastorage/blockchain.cpp:510-512 | after the merge two payloads at one id hash alike |

## Left out

- SQLite, the file system and file names: tables are sequences or maps, files are byte strings; a file that cannot be opened is not modelled.
- Integer widths: `uint64_t` positions, the `unsigned int` loop counters of base64 and the `long long` factor of `calculateCoins` are unbounded here.
- Reading a block back from its database file (through `c_str()` and `addData`): a stored block is the block that was added.
- Recognising block kinds by searching the serialized bytes: the type field decides.
- The record limit of `BlockIndex` and its reload from disk; memory mode (`MemIndex`).
- Merging payloads (`mergeBlocks`, `mergeGenesisBlocks`), `canMergeBlocks` and saving the relinked blocks again: only the relink loop is modelled.
- Keys, signatures, dates, SHA3 and msgpack: hashes and serializations are arbitrary functions, a block is signed exactly when its hash is set.
- Amounts as 50-digit floats and their text: amounts are integers (the fee of one percent is exact), and a stored state is read as it was written, except for a first debit and where createGenesisBlock reads it as a BigNumber.
- Padding of actor ids to twenty chars outside genesis rows, and the value of a genesis row's type field.
- `HistoricalChain`, `getFragment`, `sendFragment`, `FragmentWriter` and directory bookkeeping.
- Sockets, discovery, Qt signals, logs, accounts, contracts and the notification side of `addBlock`.
- Blockchain.Blockchain.AddBlock: only for a block with the next id or a negative one; a stored id goes to the merge, which is not modelled, and an id behind the next one leaves a gap, which no step of block production does.
- Blocks.ExtractConverted: a payload that does not decode makes the source throw; here it reads as no transactions, and a genesis block's as no rows (in reachable states all payloads decode, see Balances.MakeBlockKeepsQuiet).
- Proving.ProveKeepsSolvent: reward transactions are excluded, because proveTx pushes them without looking at a balance.
- NetworkCache.NetworkManager.SendMessage: an empty message, which is fatal once a connection takes it.
- A cache file that no run of the node has written: the methods of `NetworkManager` after the constructor ask for one that stands for a queue.
