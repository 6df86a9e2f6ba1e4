# Verified models of the node's data structures

This project models, in Dafny, the parts of the node whose correctness rests on
bookkeeping, bit tricks or concurrency, and proves what they are for.

- **Coins** (`Coins`, `CoinsViews`): the stack of coin caches over the coin database. Any sequence of
  operations on a stack of any depth, with flushes and uncaching at any level in between, answers like one
  flat map of unspent outputs.
- **Check queue** (`CheckQueue`): the master/worker protocol as a state machine over its critical sections,
  for any number of threads and any interleaving, spurious wake-ups included: verdicts are true, no wake-up is
  lost, nothing deadlocks, and Wait finishes.
- **Cuckoo cache** (`CuckooTable`, `CuckooCache`) and **rolling Bloom filter** (`RollingBloom`).
- **256-bit arithmetic**, the compact target encoding and the work of a block (`Limbs`, `LimbShifts`,
  `ArithUint256`, `Compact`), on 32-bit limbs updated in place.
- **Block index** (`SkipHeights`, `Chain`): skip pointers and the number of steps they save, locators, forks and common
  ancestors.
- **Golomb-coded set filters** (`BitStreams`, `GolombRice`, `GcsFilter`; BIP 158), down to the byte buffer of the
  bit streams.
- **Database transactions** (`DbTransaction`): stacked write overlays with exact memory accounting and the merging
  iterator.
- **Base 58** (`Positional`, `Base58`) and **Bech32** (`Gf32`, `Gf1024`,
  `Bech32Words`, `Bech32Errors`, `Bech32`, `Bech32Examples`; BIP 173), with the promised detection of three wrong symbols.
- **Address manager** (`AddrTables`, `AddrOps`, `AddrPolicy`, `AddrMan`, `AddrStore`,
  `AddrLoad`, `AddrFile`, `AddrExamples`): five redundant structures
  kept consistent by every run, and the stored form.

State that the node updates in place is a class with the same fields (maps, sequences and arrays); each of its
methods is proved against a function or a flat value, and the theorems about whole runs are about those.
`Nonlinear` and `Limbs` hold the arithmetic the proofs share, `Wrappers` the optional value.

Inputs from outside are parameters: hash functions, times, random draws (addresses of a draw, the start of a
search, whether a lottery is won), bucket placement of an address (any function within the table sizes), the
configured sizes, and what an address is (routable, valid).

Where code and comments disagree the model follows the code:

- `coins.cpp:114-128` reports success for a cached entry that is already spent, although the header says that
  nothing happens then; `coins.cpp:68-100` lowers the accounted memory before it throws.
- `coins.cpp:217-222` writes a null best block over the one below.
- `cuckoocache.h:404-436` starts displacing at the second place of an element, not the first as its comment says;
  the epoch size is computed from a product taken in 32 bits.
- `addrman.cpp:424-498` looks entries up by full service although the index is keyed by normalised port, so on a
  network where ports do not count the check reports an error for every entry but the first with a port.
  `addrman.h:396-559` keys the index the same way when loading.
- `addrman.h:561-583` does not clear the pending collisions.
- `base58.cpp:38-85` ignores a negative length limit for a text without digits.

## Model

| member | source | states |
|---|---|---|
| `Coins.FillKeepsView` | src/coins.cpp:42-57 | fetching a coin from below into the cache changes no answer and keeps every entry truthful about its flags |
| `Coins.FlushPreservesView` | src/coins.cpp:161-215 | writing a truthful child into its parent never throws, leaves the parent truthful, and the parent alone then answers exactly as child over parent did |
| `Coins.AppliedIsView` | src/txdb.cpp:75-134 | writing a truthful cache to the database makes the database equal the view the cache showed |
| `Coins.ViewUnspent` | src/coins.cpp:131-139 | a view over unspent coins shows only unspent coins |
| `Coins.MergeStep` | src/coins.cpp:161-215 | absorbing the child entry by entry, in any order, builds the merged cache: which entries are kept, dropped, and with which flags |
| `Coins.AppliedStep` | src/txdb.cpp:100-124 | writing entry by entry, in any order, builds the updated database |
| `Coins.AddKeepsFlags` | src/coins.cpp:68-100 | adding shows the coin; the flags stay truthful if and only if overwriting was declared possible or no unspent coin was visible |
| `Coins.BrokenPromiseRevivesCoin` | src/coins.cpp:68-100 | an undeclared overwrite marks the entry FRESH: spending it then brings the coin below back |
| `Coins.SpendRemoves` | src/coins.cpp:114-128 | spending through truthful flags removes the coin from the view and nothing else, whether the entry is dropped or kept as spent |
| `Coins.SpendUsage` | src/coins.cpp:114-128 | spending takes exactly the spent coin from the memory accounted for |
| `Coins.UncacheKeepsView` | src/coins.cpp:224-231 | dropping an unmodified entry changes no answer and the accounted memory by exactly its size |
| `Coins.UsageSumPut` | src/coins.cpp:68-100 | replacing an entry changes the accounted memory by the difference of the two sizes |
| `Coins.WithOutputsStep` | src/coins.cpp:102-112 | adding outputs one by one adds the spendable ones under consecutive positions and touches no other outpoint |
| `CoinsViews.CoinsViewDB.BatchWrite` | src/txdb.cpp:75-134 | the database after a batch: dirty entries applied, the rest untouched, new best block |
| `CoinsViews.CoinsViewCache.OnDatabase` | src/coins.h:190-260 | a new cache over a database shows exactly the database |
| `CoinsViews.CoinsViewCache.OnCache` | src/coins.h:190-260 | a new cache over a cache shows exactly that cache |
| `CoinsViews.CoinsViewCache.FetchCoin` | src/coins.cpp:42-57 | finds a coin exactly when cached or visible below, fills the cache with an unflagged entry, changes no view at any level |
| `CoinsViews.CoinsViewCache.GetCoin` | src/coins.cpp:59-66 | answers with the flattened contents of the whole stack and changes none of it |
| `CoinsViews.CoinsViewCache.AccessCoin` | src/coins.cpp:132-139 | the visible coin, or a spent one |
| `CoinsViews.CoinsViewCache.HaveCoin` | src/coins.cpp:141-144 | true exactly for coins of the flattened contents |
| `CoinsViews.CoinsViewCache.HaveCoinInCache` | src/coins.cpp:146-149 | true exactly for visible coins with an entry of this level |
| `CoinsViews.CoinsViewCache.AddCoin` | src/coins.cpp:68-100 | a script that starts with 0x6a or is longer than 10000 bytes changes nothing; otherwise it throws exactly on an unspent entry without permission, and the view gains exactly this coin; flags stay truthful exactly if the promise about overwriting held for the whole stack |
| `CoinsViews.CoinsViewCache.AddCoins` | src/coins.cpp:102-112 | adds exactly the spendable outputs of a transaction and never throws under the caller contract of its two modes |
| `CoinsViews.CoinsViewCache.SpendCoin` | src/coins.cpp:114-128 | removes exactly that coin from the flattened contents; the answer and the coin moved out |
| `CoinsViews.CoinsViewCache.Uncache` | src/coins.cpp:224-231 | drops exactly unmodified entries and changes no view |
| `CoinsViews.CoinsViewCache.GetBestBlock` | src/coins.cpp:151-155 | the nearest best block set from this level down, cached on the way |
| `CoinsViews.CoinsViewCache.SetBestBlock` | src/coins.cpp:157-159 | sets this level only |
| `CoinsViews.CoinsViewCache.MergeOne` | src/coins.cpp:161-215 | one absorbed entry: error, drop, insert or overwrite, with the memory accounting |
| `CoinsViews.CoinsViewCache.BatchWrite` | src/coins.cpp:161-215 | absorbs a child cache: throws exactly on a misapplied FRESH flag, otherwise the merged cache with exact memory accounting |
| `CoinsViews.CoinsViewCache.Absorbed` | src/coins.cpp:161-215 | a level that absorbed a truthful child is valid and shows what the child showed |
| `CoinsViews.CoinsViewCache.Flush` | src/coins.cpp:217-222 | moves everything one level down without changing the flattened contents; cache and accounting empty; a null best block overwrites the one below |
| `CoinsViews.CoinsViewCache.FlushAt` | src/coins.cpp:217-222 | flushing any level of a live stack leaves the top view unchanged |
| `CoinsViews.CoinsViewCache.UncacheAt` | src/coins.cpp:224-231 | uncaching at any level of a live stack leaves the top view unchanged |
| `CoinsViews.CoinsViewCache.Perform` | src/coins.cpp:42-231 | every operation on a stack of any depth gives the answer and the contents of one flat map |
| `CoinsViews.CoinsViewCache.Run` | src/coins.cpp:42-231 | refinement over whole runs: any sequence of allowed operations on a stack gives the answers and final contents of the flat map |
| `CheckQueue.BatchSize` | src/checkqueue.h:112-112 | a batch is never empty, never larger than the queue or the configured size |
| `CheckQueue.BatchShare` | src/checkqueue.h:112-112 | a batch is the largest whole share of the queue, one share per thread at work and per idle thread and one more, within the configured size |
| `CheckQueue.InvInit` | src/checkqueue.h:144-160 | the initial state satisfies the invariant |
| `CheckQueue.InvStep` | src/checkqueue.h:68-129 | every step of every thread keeps the invariant about the checks added since Wait last returned: nothing added is lost, the counters are exact, every private and shared verdict is justified, a sleeping master has work in flight or a pending wake-up; Wait answers exactly when it is left |
| `CheckQueue.InvRun` | src/checkqueue.h:68-186 | the invariant holds after every number of steps of every interleaving, for checks that all pass exactly if those of the Add steps since the last return of Wait do |
| `CheckQueue.WaitTellsTheTruth` | src/checkqueue.h:160-180 | at every step of every interleaving: an answer is given exactly when the master leaves Wait, and it is true exactly when every check of every Add step since Wait was last left passes; a sleeping master is notified or some worker still holds a batch |
| `CheckQueue.NothingLeft` | src/checkqueue.h:91-98 | when the master leaves, no thread holds a check back and the shared verdict is exact |
| `CheckQueue.MasterNeverStuck` | src/checkqueue.h:68-129 | no lost wake-up: a sleeping, unnotified master implies a worker that will report |
| `CheckQueue.WaitCanProceed` | src/checkqueue.h:68-129 | no deadlock: whenever the master is inside Wait some thread can take a step that makes progress |
| `CheckQueue.StepsCost` | src/checkqueue.h:68-129 | every step that is not a spurious wake-up strictly lowers a measure of the remaining work |
| `CheckQueue.WaitIsBounded` | src/checkqueue.h:68-163 | the number of working steps of any schedule is bounded by that measure: Wait returns |
| `CuckooTable.KeepFound` | src/cuckoocache.h:391-403 | inserting a stored element moves nothing and dates exactly it to the current epoch |
| `CuckooTable.Claim` | src/cuckoocache.h:405-438 | claiming a place keeps every element at one of its own eight places and unique; exactly the overwritten element leaves its epoch and exactly the new one joins its own |
| `CuckooTable.NotFoundNotStored` | src/cuckoocache.h:468-478 | an element not at any of its eight places is stored nowhere |
| `CuckooTable.DiscardLive` | src/cuckoocache.h:264-267 | marking an element takes exactly it from the live ones of either epoch |
| `CuckooTable.StartCarrying` | src/cuckoocache.h:391-409 | before the displacement loop: the element in hand is stored nowhere |
| `CuckooTable.SetDown` | src/cuckoocache.h:405-413 | putting the hand down on a discardable place ends with exactly the elements expected in either epoch |
| `CuckooTable.Swap` | src/cuckoocache.h:414-436 | a swap exchanges the hand with a live element; table and hand together keep the elements of either epoch |
| `CuckooTable.AgedAges` | src/cuckoocache.h:303-310 | ageing makes the current epoch the old one, and nothing else stays live |
| `CuckooTable.CountIsSize` | src/cuckoocache.h:295-299 | the slots counted are exactly the elements of the current epoch |
| `CuckooCache.UnpackUpdate` | src/cuckoocache.h:83-103 | setting or clearing one packed bit changes exactly that flag |
| `CuckooCache.BitFlags.constructor` | src/cuckoocache.h:59-66 | all entries start discardable; padding the size wraps around in 32 bits, so there is memory for them exactly below 2^32 - 7 |
| `CuckooCache.BitFlags.BitSet` | src/cuckoocache.h:89-92 | sets exactly one flag |
| `CuckooCache.BitFlags.BitUnset` | src/cuckoocache.h:100-103 | clears exactly one flag |
| `CuckooCache.BitFlags.BitIsSet` | src/cuckoocache.h:110-113 | reads the flag |
| `CuckooCache.Cache.Location` | src/cuckoocache.h:241-251 | a hash scaled into the table stays inside it |
| `CuckooCache.Cache.LocationScales` | src/cuckoocache.h:241-251 | the slot is the same fraction of the table as the hash is of 2^32, rounded down |
| `CuckooCache.Cache.constructor` | src/cuckoocache.h:338-351 | an empty cache: sizes, 45 percent epoch with the product taken in 32 bits, nothing live |
| `CuckooCache.Cache.CountUnused` | src/cuckoocache.h:293-299 | counts the live elements of the current epoch |
| `CuckooCache.Cache.Age` | src/cuckoocache.h:303-310 | said of the old flags: exactly the live elements of the current epoch stay live, as the old epoch, and the current one is empty |
| `CuckooCache.Cache.EpochCheck` | src/cuckoocache.h:287-319 | ages exactly when the counter has run out and the current epoch is full; what is live in either epoch afterwards, which places have room, and the new counter, all in terms of the old flags; the current epoch plus the counter stays within one epoch plus the slack |
| `CuckooCache.Cache.FindElement` | src/cuckoocache.h:394-403 | the first place holding the element |
| `CuckooCache.Cache.Turn` | src/cuckoocache.h:404-436 | ends exactly when a place of the element in hand is discardable; otherwise the hand goes to the place after the one last looked at and takes up its element and age |
| `CuckooCache.Cache.Displace` | src/cuckoocache.h:404-438 | the elements of either epoch afterwards: the old ones and the new one in the current epoch; one is dropped only after as many displacements as the depth limit, none of the displaced elements having a free place |
| `CuckooCache.Cache.Insert` | src/cuckoocache.h:391-439 | after the epoch check the element joins the current epoch and leaves the old one; at most one element is lost beyond ageing, none if it was stored or a place had room; every stored element sits at one of its places, once |
| `CuckooCache.Cache.Place` | src/cuckoocache.h:391-439 | the insertion without the epoch check |
| `CuckooCache.Cache.Contains` | src/cuckoocache.h:468-478 | finds exactly what is at its places, never misses a stored element, and erasing removes exactly that element from the live ones of either epoch |
| `RollingBloom.WipeTag` | src/bloom.cpp:337-346 | the word-wide mask clears exactly the positions tagged with the reused generation, in all 64 positions at once |
| `RollingBloom.TagWritten` | src/bloom.cpp:350-356 | the two masked writes set the tag of exactly one position |
| `RollingBloom.WipedTag` | src/bloom.cpp:340-346 | wiping the field clears exactly the tags of that generation |
| `RollingBloom.TaggedTag` | src/bloom.cpp:350-356 | tagging changes exactly one position of the field |
| `RollingBloom.NextGeneration` | src/bloom.cpp:331-347 | moving to the next generation is exactly wiping the tag it reuses: tags always equal the newest of the last three generations that touched the position |
| `RollingBloom.SetIffRecent` | src/bloom.cpp:329-378 | a position is set exactly when a key of the current or the two previous generations has it |
| `RollingBloom.RollingBloomFilter.PositionOf` | src/bloom.cpp:324-327 | the scaled hash names a bit of an existing word pair |
| `RollingBloom.RollingBloomFilter.PositionScales` | src/bloom.cpp:349-356 | the word pair is the same fraction of the field as the hash is of 2^32, rounded down, and the bit is the hash modulo 64 |
| `RollingBloom.RollingBloomFilter.constructor` | src/bloom.cpp:289-314 | an empty filter |
| `RollingBloom.RollingBloomFilter.Reset` | src/bloom.cpp:386-392 | forgets every key |
| `RollingBloom.RollingBloomFilter.Wipe` | src/bloom.cpp:338-346 | the loop over word pairs wipes the whole field |
| `RollingBloom.RollingBloomFilter.Rotate` | src/bloom.cpp:331-347 | starting a generation keeps the correspondence between tags and keys |
| `RollingBloom.RollingBloomFilter.SetTag` | src/bloom.cpp:350-356 | tags one position, all others untouched |
| `RollingBloom.RollingBloomFilter.Insert` | src/bloom.cpp:329-358 | after any run of insertions the field shows exactly the tags the inserted keys call for |
| `RollingBloom.RollingBloomFilter.Contains` | src/bloom.cpp:366-378 | true exactly when each position of the key was touched by a recent key; each of the last two generations plus the current one is always found |
| `ArithUint256.Uint256.FromUint64` | src/arith_uint256.h:54-60 | the value of a 64-bit number |
| `ArithUint256.Uint256.Copy` | src/arith_uint256.h:39-45 | a separate copy with the same limbs |
| `ArithUint256.Uint256.Assign` | src/arith_uint256.h:47-52 | takes the value, also from itself |
| `ArithUint256.Uint256.AssignUint64` | src/arith_uint256.h:85-92 | the value of a 64-bit number |
| `ArithUint256.Uint256.Complement` | src/arith_uint256.h:66-72 | 2^256 - 1 - value |
| `ArithUint256.Uint256.Negate` | src/arith_uint256.h:74-81 | the additive inverse modulo 2^256 |
| `ArithUint256.Uint256.Add` | src/arith_uint256.h:132-142 | addition modulo 2^256, also of an object to itself |
| `ArithUint256.Uint256.Sub` | src/arith_uint256.h:144-148 | subtraction modulo 2^256 |
| `ArithUint256.Uint256.Increment` | src/arith_uint256.h:170-177 | plus one modulo 2^256 |
| `ArithUint256.Uint256.Decrement` | src/arith_uint256.h:187-194 | minus one modulo 2^256 |
| `ArithUint256.Uint256.GetLow64` | src/arith_uint256.h:242-246 | the value modulo 2^64 |
| `ArithUint256.Uint256.ShiftLeft` | src/arith_uint256.cpp:20-35 | multiplication by a power of two modulo 2^256, for every shift distance |
| `ArithUint256.Uint256.ShiftRight` | src/arith_uint256.cpp:37-52 | division by a power of two, for every shift distance |
| `ArithUint256.Uint256.MulUint32` | src/arith_uint256.cpp:54-64 | multiplication by a 32-bit number modulo 2^256 |
| `ArithUint256.Uint256.AddRow` | src/arith_uint256.cpp:66-80 | one row of the schoolbook product, added in with carries |
| `ArithUint256.Uint256.Mul` | src/arith_uint256.cpp:66-80 | the schoolbook product is multiplication modulo 2^256 |
| `ArithUint256.Uint256.SetBit` | src/arith_uint256.cpp:93-101 | one quotient bit |
| `ArithUint256.Uint256.Div` | src/arith_uint256.cpp:82-106 | long division gives the exact integer quotient; it reports division by zero exactly for a zero divisor, having already zeroed the number |
| `ArithUint256.Uint256.CompareTo` | src/arith_uint256.cpp:108-118 | the order of the values |
| `ArithUint256.Uint256.EqualTo` | src/arith_uint256.cpp:120-132 | equality with a 64-bit number |
| `ArithUint256.Uint256.Bits` | src/arith_uint256.cpp:170-183 | the position of the highest set bit |
| `Compact.SetCompact` | src/arith_uint256.cpp:203-221 | decodes to mantissa times 256^(exponent-3) modulo 2^256; the overflow flag is exact; the negative flag is the sign of a nonzero magnitude |
| `Compact.GetCompact` | src/arith_uint256.cpp:223-244 | the compact form of the value |
| `Compact.OverflowExact` | src/arith_uint256.cpp:213-219 | the three-way size test holds exactly when the magnitude does not fit 256 bits |
| `Compact.RoundTrip` | src/arith_uint256.cpp:203-244 | decoding an encoding gives the value rounded down to its leading bytes, exactly the value when it is short, with the sign bit set exactly for a negative nonzero value |
| `Compact.Fields` | src/arith_uint256.cpp:205-215 | exponent, sign bit and mantissa side by side make up the compact number |
| `Compact.Normalised` | src/arith_uint256.cpp:223-244 | the mantissa of a positive value keeps at least 16 significant bits |
| `Compact.Published` | src/test/arith_uint256_tests.cpp:405-520 | published pairs of compact forms, magnitudes and signs |
| `Compact.TruncatedSame` | src/arith_uint256.cpp:223-244 | rounding changes neither the size nor the mantissa |
| `Compact.RoundTripIdempotent` | src/arith_uint256.cpp:203-244 | a second round trip changes nothing |
| `Compact.CompactFits` | src/arith_uint256.cpp:223-244 | mantissa and size of any value fit their fields |
| `Compact.WorkFormula` | src/chain.cpp:122-135 | the complement form computes 2^256 / (target + 1) without leaving 256 bits |
| `Compact.TargetNotMaximal` | src/chain.cpp:122-135 | no compact target is 2^256 - 1, so the divisor never wraps to zero |
| `Compact.GetBlockProof` | src/chain.cpp:122-135 | the work of a block: zero for a negative, overflowing or zero target, otherwise exactly 2^256 / (target + 1) |
| `SkipHeights.LowestOfHalf` | src/chain.cpp:70-71 | n & (n - 1) clears the lowest one bit: the last bit of an odd number, that of the half of an even one |
| `SkipHeights.SkipBelow` | src/chain.cpp:74-82 | where skips lead from the heights 2^i and 2^i - 1 below a multiple of a higher power of two |
| `SkipHeights.SkipAbove` | src/chain.cpp:74-82 | where they lead from above: the low one bits go first, one or two at a time |
| `SkipHeights.InBlock` | src/chain.cpp:84-109 | walking down from the top of an aligned block of 2^k heights to any of them: about k^2 / 4 steps |
| `SkipHeights.FromAbove` | src/chain.cpp:84-109 | walking down to the block of the target: one step per one bit above it for multiples of 8, about half as many otherwise |
| `SkipHeights.WalkIsShort` | src/chain.cpp:74-109 | with all skips built, a walk between any two heights below 2^k takes at most a bound of about k^2 / 4 steps |
| `SkipHeights.AtMost110` | src/chain.cpp:78-80 | at most 110 steps back from any of the first 2^18 blocks, as the comment reports from simulations |
| `Chain.BlockIndex.AncestorOfAncestor` | src/chain.cpp:84-109 | ancestors of ancestors are ancestors |
| `Chain.BlockIndex.AncestorValid` | src/chain.cpp:84-120 | every ancestor of a valid entry is valid |
| `Chain.BlockIndex.constructor` | src/chain.cpp:116-120 | a new entry on top of its predecessor |
| `Chain.BlockIndex.GetAncestor` | src/chain.cpp:84-109 | the walk over skip pointers ends at the block that following predecessors reaches, for every height and whatever skip pointers are built; with all built, in exactly the steps counted above |
| `Chain.BlockIndex.BuildSkip` | src/chain.cpp:116-120 | the skip pointer is the ancestor at the skip height |
| `Chain.Chain.SetTip` | src/chain.cpp:11-21 | the vector afterwards holds exactly the line of the new tip, entries already right being kept |
| `Chain.Chain.ContainsIsOnLine` | src/chain.h:517-519 | containing a block means being on the line of the tip |
| `Chain.Chain.NextSucceeds` | src/chain.h:522-527 | the successor in the chain, absent exactly for the tip and for foreign blocks |
| `Chain.Chain.StepBack` | src/chain.cpp:36-46 | one step of the locator, through the vector or through skip pointers, is the ancestor at that height |
| `Chain.Chain.GetLocator` | src/chain.cpp:23-49 | the blocks at the locator heights on the line of the start block |
| `Chain.LocatorShape` | src/chain.cpp:23-49 | locator heights start at the block, fall strictly and end at genesis |
| `Chain.LocatorExact` | src/chain.cpp:23-49 | all heights but the last: the first twelve follow each other, then the gaps double |
| `Chain.LocatorIsShort` | src/chain.cpp:23-49 | a locator has at most 11 more entries than the height has binary digits |
| `Chain.DoublingIsShort` | src/chain.cpp:42-46 | doubling steps reach genesis in logarithmically many entries |
| `Chain.Chain.FindFork` | src/chain.cpp:51-60 | the highest block of the given line that is in the chain |
| `Chain.LastCommonAncestor` | src/chain.cpp:156-171 | a block on both lines, and no two blocks above it at the same height coincide |
| `BitStreams.FromToBits` | src/streams.h:519-584 | the n lowest bits of a number, read as a number, give it modulo 2^n |
| `BitStreams.NextChunk` | src/streams.h:574-575 | shifting a word up to 64 bits and down again leaves the highest of its remaining bits, aligned to the free part of the byte |
| `BitStreams.FillByte` | src/streams.h:574-575 | or-ing them into the partly filled byte appends them to its bits |
| `BitStreams.TakeChunk` | src/streams.h:531-532 | shifting the buffered byte up in 8 bits and down again gives the next bits |
| `BitStreams.Appended` | src/streams.h:530-532 | shifting the word up and or-ing them in appends them, within 64 bits |
| `BitStreams.BitWriter.Write` | src/streams.h:567-584 | appends the n lowest bits, highest first, across the byte buffer and the bytes already written |
| `BitStreams.BitWriter.Flush` | src/streams.h:587-595 | pads with zeroes to a byte; everything is then in the bytes written |
| `BitStreams.BitReader.Read` | src/streams.h:519-538 | the next n bits of the bytes as a number, or failure exactly when fewer are left |
| `GolombRice.DecodeCode` | src/blockfilter.cpp:26-55 | a Golomb-Rice code decodes to the number that was encoded, modulo 2^64, wherever it stands in the stream |
| `GolombRice.CodeShape` | src/blockfilter.cpp:26-41 | the code bit by bit: ones for the quotient, a zero, and the remainder with its highest bit first |
| `GolombRice.ReadIsCode` | src/blockfilter.cpp:43-55 | whatever bits are read as a code are the code of a number, bounded by the bits read |
| `GolombRice.EncodeNumber` | src/blockfilter.cpp:26-41 | the loop of 64-bit chunks of ones, the stop bit and the low bits write exactly the code |
| `GolombRice.DecodeNumber` | src/blockfilter.cpp:43-55 | reads one number, or fails at the end of the stream |
| `GcsFilter.MapIntoRangeExact` | src/blockfilter.cpp:62-86 | the four half products give exactly x * n / 2^64, below n |
| `GcsFilter.SortedInsert` | src/blockfilter.cpp:96-105 | insertion keeps order and contents |
| `GcsFilter.Filter.BuildHashedSet` | src/blockfilter.cpp:96-105 | the sorted hashes of all elements, duplicates kept |
| `GcsFilter.EncodeHashes` | src/blockfilter.cpp:134-162 | the filter bytes start with the codes of the differences, then less than a byte of padding |
| `GcsFilter.DecodeNext` | src/blockfilter.cpp:164-194 | each code of an encoded list decodes to the next difference, in 64 bits, at the right position |
| `GcsFilter.RunningEncoded` | src/blockfilter.cpp:111-132 | the running sums read from the code of a sorted list are its numbers modulo 2^64 |
| `GcsFilter.Build` | src/blockfilter.cpp:134-162 | a filter over a set: fails exactly for 2^32 or more elements, otherwise encodes exactly their hashes |
| `GcsFilter.Filter.MatchInternal` | src/blockfilter.cpp:164-194 | for every accepted filter, sums that wrap included: true exactly when some decoded value that no earlier one exceeds is among the queries |
| `GcsFilter.Filter.Match` | src/blockfilter.cpp:196-200 | the same for the hash of one element |
| `GcsFilter.Filter.MatchAny` | src/blockfilter.cpp:202-206 | true exactly when some element would match by itself |
| `GcsFilter.BuiltAnswers` | src/blockfilter.cpp:111-194 | a built filter is accepted when read back, and a query finds exactly the values it shares with the filter |
| `GcsFilter.QueryBuilt` | src/blockfilter.cpp:134-206 | building and querying: an element matches exactly when it shares its hash with an element of the set |
| `GcsFilter.FromEncoded` | src/blockfilter.cpp:111-132 | a stored filter is accepted exactly when its codes are complete and less than a byte is left over |
| `GcsFilter.CodesEncode` | src/blockfilter.cpp:111-132 | whatever stream has n codes encodes some sorted list of n numbers, bounded by its length |
| `GcsFilter.AcceptedEncodes` | src/blockfilter.cpp:111-132 | every accepted filter encodes a sorted list, and its values are that list modulo 2^64 |
| `DbTransaction.LessTransitive` | src/dbwrapper.h:556-565 | byte order is transitive |
| `DbTransaction.LessTotal` | src/dbwrapper.h:556-565 | byte order is total |
| `DbTransaction.LessPrecedes` | src/dbwrapper.h:556-565 | a key is less exactly when at the first difference it ends or has the smaller byte |
| `DbTransaction.OverlayWrite` | src/dbwrapper.h:609-623 | a write shows in the overlaid view and nothing else changes |
| `DbTransaction.OverlayErase` | src/dbwrapper.h:671-680 | an erasure shows in the overlaid view and nothing else changes |
| `DbTransaction.Transaction.OnStore` | src/dbwrapper.h:602-602 | a new transaction shows the store |
| `DbTransaction.Transaction.OnTransaction` | src/dbwrapper.h:602-602 | a new transaction over another one shows what that shows |
| `DbTransaction.Transaction.Write` | src/dbwrapper.h:609-623 | the view gains the key, what is pending and the memory account change by exactly this value |
| `DbTransaction.Transaction.Read` | src/dbwrapper.h:630-647 | reads the view through all levels, or fails exactly when the pending value, at whatever level, was written with another type |
| `DbTransaction.Transaction.Exists` | src/dbwrapper.h:654-664 | true exactly for keys of the view |
| `DbTransaction.Transaction.Erase` | src/dbwrapper.h:671-680 | the view loses the key, what is pending and the memory account change by exactly this key |
| `DbTransaction.Transaction.Clear` | src/dbwrapper.h:682-686 | the parent shows through |
| `DbTransaction.Transaction.CommitToBatch` | src/dbwrapper.h:688-696 | the batch becomes the view when it agrees with the store, and exactly the pending changes are applied to any batch |
| `DbTransaction.Transaction.CommitDown` | src/dbwrapper.h:688-696 | committing into the transaction below: it then shows what this one showed, every value under its type, its own parent is untouched, and no reader notices |
| `DbTransaction.TransactionIterator.constructor` | src/dbwrapper.h:414-420 | cursors over the two key orders, the lower one being an iteration of the transaction below |
| `DbTransaction.TransactionIterator.SkipDeletedAndOverwritten` | src/dbwrapper.h:522-530 | skips exactly hidden parent keys: no visible key is lost |
| `DbTransaction.TransactionIterator.DecideCur` | src/dbwrapper.h:532-544 | the current side is the one with the smaller key |
| `DbTransaction.TransactionIterator.SeekToFirst` | src/dbwrapper.h:422-427 | every visible key lies ahead |
| `DbTransaction.TransactionIterator.Seek` | src/dbwrapper.h:434-439 | exactly the visible keys that do not precede the sought one, at the first differing byte, lie ahead |
| `DbTransaction.TransactionIterator.IsValid` | src/dbwrapper.h:441-443 | true exactly while a visible key lies ahead |
| `DbTransaction.TransactionIterator.GetKey` | src/dbwrapper.h:487-496 | the visible key ahead that precedes all others there, at the first differing byte |
| `DbTransaction.TransactionIterator.Next` | src/dbwrapper.h:445-458 | leaves behind exactly the least key |
| `DbTransaction.Iterate` | src/dbwrapper.h:396-545 | a full iteration over writes, deletes and parent yields every visible key exactly once, each preceding the next at the first differing byte, on stacks of transactions of any height |
| `Positional.ConvertBack` | src/base58.cpp:38-125 | conversion between two bases that keeps leading zeroes one for one is undone by converting back, for all bases above one |
| `Positional.DigitsUnique` | src/base58.cpp:77-84 | a digit sequence without leading zero is the only one for its number |
| `Positional.Accumulate` | src/base58.cpp:61-67 | the in-place loop sets the buffered number to number * factor + digit, leaves canonical digits, and the carry always runs out |
| `Positional.DigitsGrow` | src/base58.cpp:68-69 | a larger number never has fewer digits |
| `Base58.AlphabetByRuns` | src/base58.cpp:17-18 | the digit characters are the alphabet |
| `Base58.DigitRoundTrip` | src/base58.cpp:18-36 | the two tables are inverse to each other and minus one marks every other character |
| `Base58.EncodeFits` | src/base58.cpp:97-97 | 138/100 of the byte count plus one digits always suffice |
| `Base58.DecodeFits` | src/base58.cpp:52-52 | 733/1000 of the digit count plus one bytes always suffice |
| `Base58.Encode` | src/base58.cpp:87-125 | the text of a byte string |
| `Base58.ReadDigits` | src/base58.cpp:51-71 | the digit loop: fails exactly on a foreign character or an excessive length, otherwise yields the bytes |
| `Base58.Decode` | src/base58.cpp:38-85 | decodes exactly the texts that, blanks around them apart, consist of alphabet characters and whose bytes fit the limit |
| `Base58.TooLong` | src/base58.cpp:46-70 | a prefix that is already too long settles the outcome: the early exits change no result |
| `Base58.DecodeEncoded` | src/base58.cpp:38-125 | decoding an encoding restores every byte string, exactly when the length limit admits it |
| `Base58.EncodeDecoded` | src/base58.cpp:38-125 | a text that decodes is, blanks apart, the encoding of what it decodes to |
| `Base58.EncodeCheck` | src/base58.cpp:140-147 | the encoding of the bytes and the first four bytes of their hash |
| `Base58.DecodeCheck` | src/base58.cpp:149-164 | yields exactly the bytes whose checked form the text encodes, within the saturating limit |
| `Base58.CheckedMeaning` | src/base58.cpp:140-166 | a text means the checked form of some bytes exactly when it is, blanks apart, its encoding |
| `Base58.Published` | src/test/data/base58_encode_decode.json:3-8 | published pairs of bytes and text |
| `Base58.SpaceIff` | src/util/strencodings.h:98-100 | blanks are the space and the characters 9 to 13 |
| `Gf32.TimesXSum` | src/bech32.cpp:33-90 | multiplication by x modulo the generator is additive |
| `Gf32.TimesXInjective` | src/bech32.cpp:33-90 | and injective |
| `Gf32.MulAssoc` | src/bech32.cpp:47-53 | multiplication of 5-bit values modulo a^5 + a^3 + 1 is associative |
| `Gf32.MulCommutes` | src/bech32.cpp:47-53 | and commutative |
| `Gf32.MulNonzero` | src/bech32.cpp:47-53 | and has no zero divisors |
| `Gf32.RemainderSum` | src/bech32.cpp:33-90 | remainders of symbol sequences add up |
| `Gf32.TailUnique` | src/bech32.cpp:123-135 | exactly one group of six final symbols makes the remainder a given value |
| `Bech32Words.UnpackConstants` | src/bech32.cpp:82-87 | the five constants are the generator times 1, a, a^2, a^3 and a^4 in GF(32) |
| `Bech32Words.StepIsFeed` | src/bech32.cpp:76-87 | one round of the word loop is multiplication by x and addition, in GF(32) arithmetic |
| `Bech32Words.StepWord` | src/bech32.cpp:76-87 | the statements of the round compute that step |
| `Bech32Words.PolyMod` | src/bech32.cpp:33-90 | the loop computes the remainder of the polynomial 1, v0, v1, ... modulo the generator, in 30 bits |
| `Bech32Words.UnpackXor` | src/bech32.cpp:82-87 | exclusive or of words is addition of residues |
| `Gf1024.TimesNonzero` | src/bech32.cpp:40-53 | the extension of GF(32) by y with y^2 = y + 1 has no zero divisors |
| `Gf1024.AlphaOrder` | src/bech32.cpp:42-45 | no power of a from 1 to 1022 is 1 |
| `Gf1024.ThreeRoots` | src/bech32.cpp:42-45 | the generator has roots b, a * b and a * a * b there: the code is a BCH code |
| `Gf1024.ValueTimesX` | src/bech32.cpp:61-74 | at a root of the generator, multiplication by x modulo the generator is multiplication by the root |
| `Gf1024.ThreeTerms` | src/bech32.cpp:42-45 | d * x^p + e * x^q + f with d nonzero and 0 < q < p < 1023 is never a multiple of the generator |
| `Bech32Errors.FirstDifference` | src/bech32.cpp:42-45 | splits the difference of two sequences at its first nonzero symbol |
| `Bech32Errors.ErrorsDetected` | src/bech32.cpp:42-45 | one, two or three substitutions within a window of 1023 symbols, in a sequence of any length and from any start, change the remainder |
| `Bech32.CharsetPosition` | src/bech32.cpp:16-28 | the character set and its reverse table agree, and it has no separator and no upper case |
| `Bech32.PositionCharset` | src/bech32.cpp:18-28 | the reverse table names positions of the character set only |
| `Bech32.Expand` | src/bech32.cpp:99-111 | the high three bits of every character of the prefix, a zero, then the low five bits of every character |
| `Bech32.ExpandInjective` | src/bech32.cpp:99-111 | different prefixes give different symbols |
| `Bech32.VerifyChecksum` | src/bech32.cpp:114-121 | true exactly when the remainder of the expanded prefix and the values is one |
| `Bech32.CreateChecksum` | src/bech32.cpp:124-135 | the six symbols that alone make the values verify |
| `Bech32.ChecksumUnique` | src/bech32.cpp:113-135 | a group of six symbols verifies after the values if and only if it is the created checksum |
| `Bech32.SubstitutionsDetected` | src/bech32.cpp:42-45 | of two symbol sequences that differ in one to three places within 1023, at most one verifies |
| `Bech32.TypingErrors` | src/bech32.cpp:42-45 | replacing one to three characters after the separator of a text that decodes by other characters of the set leaves a text that does not decode |
| `Bech32.Encode` | src/bech32.cpp:143-156 | prefix, separator, symbols and checksum |
| `Bech32.CaseCheck` | src/bech32.cpp:160-167 | rejects exactly unprintable characters and mixed case |
| `Bech32.Decode` | src/bech32.cpp:159-190 | the decoding, step by step |
| `Bech32.DecodesExactly` | src/bech32.cpp:159-190 | a text decodes to a prefix and symbols if and only if it is their encoding, in one case, with a printable prefix and at most 90 characters |
| `Bech32.RoundTrip` | src/bech32.cpp:143-190 | decoding an encoding restores prefix and symbols exactly when the prefix is printable and not empty and the text has at most 90 characters |
| `Bech32Examples.StepsRemainder` | src/bech32.cpp:33-90 | stepping through symbols computes the remainder |
| `Bech32Examples.ShortText` | src/test/bech32_tests.cpp:17-17 | the published text a12uel5l decodes to the prefix a and no symbols |
| `Bech32Examples.UpperText` | src/test/bech32_tests.cpp:16-16 | and so does its upper case form |
| `Bech32Examples.LongText` | src/test/bech32_tests.cpp:19-19 | a published text with every symbol once, in order, decodes to them |
| `AddrTables.SwappedKeeps` | src/addrman.cpp:109-127 | swapping keeps the permutation and its back-pointers, and every other part of the invariant |
| `AddrTables.CreatedKeeps` | src/addrman.cpp:92-107 | creation keeps the invariant, with one entry that has no position and is not counted |
| `AddrTables.DeletedKeeps` | src/addrman.cpp:129-146 | deleting an entry without position keeps the invariant and disturbs no other entry |
| `AddrTables.ReleasedKeeps` | src/addrman.cpp:151-156 | the holder of a new position exists, is not in tried and has a positive count; giving the position up keeps counts exact |
| `AddrTables.ClearedNewKeeps` | src/addrman.cpp:148-161 | clearing a position frees exactly it, deletes its holder exactly when that was its last, and disturbs no other entry |
| `AddrTables.ClaimedKeeps` | src/addrman.cpp:336-339 | taking a free position of its own keeps counts equal to positions held |
| `AddrOps.ReleasedUpToAll` | src/addrman.cpp:165-172 | the sweep over all new buckets removes every position of the entry and brings its count to zero |
| `AddrOps.EvictedKeeps` | src/addrman.cpp:187-190 | eviction from tried |
| `AddrOps.ReadmittedKeeps` | src/addrman.cpp:192-201 | the evicted entry is back in new with exactly one position, whatever had to make room |
| `AddrOps.EnteredKeeps` | src/addrman.cpp:203-208 | entering tried |
| `AddrOps.MadeTriedKeeps` | src/addrman.cpp:163-209 | moving an entry to tried keeps the invariant; both tables and all records afterwards: it has exactly its tried position, leaves new, and an evicted entry goes back to the new position of its own source; all assertions on the way hold |
| `AddrOps.FindIff` | src/addrman.cpp:74-90 | an entry is found exactly when one with the same normalised address exists, and it is the only one |
| `AddrOps.AlwaysHeld` | src/addrman.cpp:236-249 | an entry outside tried always holds a new position: the bail-out is never taken |
| `AddrOps.GoodKeeps` | src/addrman.cpp:211-279 | marking an address good keeps the invariant |
| `AddrOps.AddKeeps` | src/addrman.cpp:281-352 | adding keeps the invariant and reports new exactly for routable unknown addresses |
| `AddrOps.StatisticsKeep` | src/addrman.cpp:354-374 | updating statistics keeps the invariant |
| `AddrOps.ShuffledKeeps` | src/addrman.cpp:501-520 | drawing addresses permutes the random order and keeps the invariant |
| `AddrOps.ResolvedKeeps` | src/addrman.cpp:577-634 | resolving any set of collisions keeps the invariant |
| `AddrOps.SelectedIsTried` | src/addrman.cpp:636-661 | in a consistent manager the selected record is absent exactly when no such collision or entry exists, and otherwise an entry in tried at the wanted position; nothing is inserted |
| `AddrOps.EmptyInv` | src/addrman.h:585-589 | a new manager satisfies the invariant |
| `AddrOps.ApplyKeeps` | src/addrman.cpp:92-661 | every operation keeps the invariant, never reuses an id and never empties an occupied tried position |
| `AddrOps.RunKeeps` | src/addrman.cpp:92-661 | the same over every run of operations: counts equal positions held and lie between one and eight, tried entries hold one position, the random order is a permutation with exact back-pointers, counters are exact, lookups are by normalised address, pending collisions are at most ten and collide with an occupied position |
| `AddrOps.CheckExact` | src/addrman.cpp:424-498 | the consistency check passes in a reachable state if and only if ports count or every entry but id 0 has port 0: it looks entries up without normalising the port |
| `AddrOps.ClearedIff` | src/addrman.h:561-583 | clearing leaves a consistent manager exactly when no collision was pending |
| `AddrOps.LookupSpoils` | src/addrman.cpp:443-444 | the lookup of the check inserts the key it misses: the index stays consistent if and only if ports count or the entry has port 0 |
| `AddrPolicy.GoodUnknown` | src/addrman.cpp:211-228 | an unknown service only dates the last success |
| `AddrPolicy.GoodMoves` | src/addrman.cpp:211-279 | success and attempt are dated and failures forgotten; an entry outside tried moves to tried with the tables given exactly, unless it would evict an address that the caller wants probed first: then it is only recorded, as one of at most ten collisions |
| `AddrPolicy.ResolvedOneSettles` | src/addrman.cpp:577-634 | the policy for a pending collision, case by case: dropped if unknown, invalid or its holder succeeded within four hours; replaced after a failed attempt more than a minute and less than four hours old, or forty minutes after its own success; untouched otherwise |
| `AddrPolicy.OthersPending` | src/addrman.cpp:577-634 | settling one collision leaves the others pending |
| `AddrPolicy.TerribleIff` | src/addrman.cpp:39-57 | which entries are of low quality |
| `AddrPolicy.AddUnroutable` | src/addrman.cpp:281-284 | an address that is not routable changes nothing |
| `AddrPolicy.AddUnknown` | src/addrman.cpp:281-352 | an unknown address is known afterwards if and only if its position was free, terrible or held by an entry with another one; then it is there exactly once, with what was announced, the penalised time and no history; no other record changes |
| `AddrPolicy.AddKnown` | src/addrman.cpp:281-352 | a known address gets the services, a time that is news by an hour or a day, and one more position exactly if the announcement is news, it is in new with fewer than eight, it is lucky and the position is free or held by a terrible entry |
| `AddrPolicy.StatisticsUnknown` | src/addrman.cpp:354-374 | attempts, connections and services of an unknown service change nothing |
| `AddrPolicy.AttemptCounts` | src/addrman.cpp:354-374 | an attempt is dated and, if it is to count, counted once between two successes of the node |
| `AddrPolicy.ConnectedDates` | src/addrman.cpp:522-540 | a connection dates the address anew when its date is more than twenty minutes old |
| `AddrPolicy.ServicesSet` | src/addrman.cpp:542-558 | the services are replaced and nothing else changes |
| `AddrMan.AddressManager.constructor` | src/addrman.h:585-589 | an empty, valid manager |
| `AddrMan.AddressManager.SwapRandom` | src/addrman.cpp:109-127 | both entries and both places change |
| `AddrMan.AddressManager.Delete` | src/addrman.cpp:129-146 | removes the entry from all four indexes |
| `AddrMan.AddressManager.ClearNew` | src/addrman.cpp:148-161 | computes the specified clearing on the array; its assertion holds |
| `AddrMan.AddressManager.RemoveFromNew` | src/addrman.cpp:165-172 | the bucket loop releases every position of the entry |
| `AddrMan.AddressManager.MakeRoom` | src/addrman.cpp:180-202 | evicts and readmits |
| `AddrMan.AddressManager.MakeTried` | src/addrman.cpp:163-209 | computes the specified move; its assertions hold |
| `AddrMan.AddressManager.FindEntry` | src/addrman.cpp:74-90 | the entry for the normalised address |
| `AddrMan.AddressManager.SearchNew` | src/addrman.cpp:236-244 | the wrapped search finds a position exactly when one is held |
| `AddrMan.AddressManager.GoodEntry` | src/addrman.cpp:211-279 | computes the specified state and stays valid |
| `AddrMan.AddressManager.Create` | src/addrman.cpp:92-107 | a new entry in all indexes |
| `AddrMan.AddressManager.PlaceNew` | src/addrman.cpp:329-350 | gives the entry the position of the source, if it may have it |
| `AddrMan.AddressManager.AddEntry` | src/addrman.cpp:281-352 | computes the specified state and answer and stays valid |
| `AddrMan.AddressManager.AttemptEntry` | src/addrman.cpp:354-374 | computes the specified state and stays valid |
| `AddrMan.AddressManager.ConnectedEntry` | src/addrman.cpp:522-540 | computes the specified state and stays valid |
| `AddrMan.AddressManager.SetEntryServices` | src/addrman.cpp:542-558 | computes the specified state and stays valid |
| `AddrMan.AddressManager.GetAddr` | src/addrman.cpp:501-520 | addresses of different entries of good quality, at most 23 percent and 2500, and all of them if there are fewer |
| `AddrMan.AddressManager.ResolveCollisions` | src/addrman.cpp:577-634 | settles every pending collision once, in increasing order, each by the policy applied to the state it finds, and stays valid |
| `AddrMan.AddressManager.ResolveOne` | src/addrman.cpp:577-634 | settles one pending collision by the policy and stays valid |
| `AddrMan.AddressManager.JudgeEntry` | src/addrman.cpp:588-625 | the verdict on one pending collision, with its thresholds: dropped, replacing or kept exactly as the times of the holder and of the entry say |
| `AddrMan.AddressManager.SelectTriedCollision` | src/addrman.cpp:636-661 | returns nothing or an entry in tried, and stays valid |
| `AddrMan.AddressManager.Clear` | src/addrman.h:561-583 | empties tables and indexes, restarts ids and counters, and leaves the pending collisions |
| `AddrExamples.CheckFails` | src/addrman.cpp:424-498 | two announced addresses on a network where ports do not count: the check reports an error |
| `AddrExamples.ReloadFails` | src/addrman.h:336-559 | the file saved in that state does not restore a consistent manager |
| `AddrExamples.ClearIsIncomplete` | src/addrman.h:561-583 | a run after which clearing leaves a pending collision behind; the next address takes its id, and selecting the collision inserts a blank entry under id -1 |
| `AddrStore.WithNewKeeps` | src/addrman.h:450-458 | loading a new entry keeps the tables, counters, random order and raw index consistent, but for its missing position |
| `AddrStore.WithTriedKeeps` | src/addrman.h:460-479 | so does loading a tried entry, lost or not |
| `AddrStore.PlacedKeeps` | src/addrman.h:516-541 | and giving out a stored or a fallback position |
| `AddrStore.PrunedKeeps` | src/addrman.h:543-553 | pruning removes exactly the new entries without position, and the keys of their normalised addresses |
| `AddrStore.LoadedConsistent` | src/addrman.h:396-559 | for every file: the loaded manager is consistent if and only if every loaded service is its own key, no kept entry shares its service with another loaded one, and kept times are sound |
| `AddrStore.LoadedInto` | src/addrman.h:396-559 | the same for loading into any manager, whose pending collisions survive and have to fit |
| `AddrStore.AllTriedExact` | src/addrman.h:460-479 | no tried entry is lost when their positions differ |
| `AddrStore.AllPlacedExact` | src/addrman.h:516-541 | positions that came from a table are all free when their turn comes, and below the limit of eight |
| `AddrStore.FilledRestored` | src/addrman.h:336-541 | after saving and loading both tables, all counts and all entries are restored, whatever the port policy |
| `AddrStore.RoundTrip` | src/addrman.h:336-559 | loading what a consistent manager saved loses no entry and rebuilds both tables and all reference counts up to the numbering of ids; the result is consistent if and only if ports count or all ports are zero |
| `AddrLoad.AllTriedFirst` | src/addrman.h:460-479 | of the stored tried entries exactly the first that wants a position gets it |
| `AddrLoad.AllPlacedWhere` | src/addrman.h:516-541 | a new position is one the entry is listed for, if lists count, or the one of its own source; a listed entry goes without only if the latter is taken |
| `AddrLoad.LoadsWhere` | src/addrman.h:396-559 | for every file: which entries exist afterwards, with which records, at which positions |
| `AddrFile.CollectEntries` | src/addrman.h:353-372 | the saving loops write each new, and each tried, entry once; their assertions on the counters hold |
| `AddrFile.SaveBucket` | src/addrman.h:373-386 | a bucket list names each entry of the bucket once |
| `AddrFile.Save` | src/addrman.h:336-394 | writes the stored form |
| `AddrFile.LoadNewEntries` | src/addrman.h:450-458 | loads the new entries under consecutive ids |
| `AddrFile.LoadTriedEntries` | src/addrman.h:460-479 | loads the tried entries whose position is free |
| `AddrFile.CollectPairs` | src/addrman.h:481-496 | the pairs of buckets and valid indexes |
| `AddrFile.PlaceEntries` | src/addrman.h:516-541 | gives out positions |
| `AddrFile.Prune` | src/addrman.h:543-553 | deletes exactly the new entries left without position; its preconditions hold for any file |
| `AddrFile.Load` | src/addrman.h:396-559 | refuses exactly counts beyond the table sizes, otherwise rebuilds the manager with every entry where the file and its source put it, stored buckets counting exactly for the same bucket count and address map; valid exactly when the file loads clean and the collisions that were pending fit |
| `AddrFile.SavedFits` | src/addrman.h:436-448 | every saved manager is within those limits |
| `AddrFile.SaveAndLoad` | src/addrman.h:336-559 | saving one manager and loading it into another: never refused, same tables, counts and records field by field, attempts beginning afresh, valid exactly under the port condition and if its pending collisions fit |

## Left out

- Script and transaction validation, networking, wallet, consensus rules and everything else outside the files cited above.
- Thread interleavings inside a critical section, stopping the workers, and the swap of checks between vectors in the check queue: a step is one critical section or one executed check.
- Atomicity and memory ordering of the cuckoo cache's flags: lookups and insertions are modelled one after the other.
- RollingBloom.RollingBloomFilter.constructor: sizes are parameters, where the code computes them from a false-positive rate by logarithms; the rate itself is not modelled.
- CuckooCache.Cache.constructor: the depth limit is a parameter, where the code takes a floating-point logarithm of the size.
- The compact-size header of a stored filter: the element count is a parameter.
- Serialization of keys and values in database transactions: keys are byte strings and values opaque, with a size and a type tag.
- The memory behind `cachedCoinsUsage` is the model's size of a coin; allocator overhead is not modelled.
- CoinsViews.CoinsViewCache.Run: operations are those whose answers the coins decide; HaveCoinInCache depends on what happens to be cached and has its own contract.
- CoinsViews.CoinsViewDB.BatchWrite: a batch is applied at once; partial batches, crash simulation and replay markers are not modelled.
- Bech32.SubstitutionsDetected: up to three substitutions within 1023 symbols, as the code's comment promises; its further promise of four within 89 symbols is a fact about this one generator, found by search over all positions, and is not proved.
- Bech32 symbols are 5-bit values by type; the code indexes a 32-character table with a byte.
- Base 58 strings are character sequences without the trailing zero of C strings; a zero character is an invalid digit.
- AddrMan.AddressManager.Clear: keeps the placement of addresses, where the code draws a new secret key.
- AddrFile.Load: keeps the manager's placement of addresses, where the code takes the secret key from the file.
- Selection of a random address to connect to and its chances (floating point, terminates with probability one only).
- Stored formats of the address manager before the current one, the 2^30 marker, key and version bytes: the stored form is the sequence of values after them.
- Overflow of the address manager's id counter and of int counters on inputs of 2^31 elements.
- Difficulty adjustment, chain work totals and header validation built on the arithmetic.
