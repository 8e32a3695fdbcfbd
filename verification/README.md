# Dystater core: verified model

A Dafny model of the stateful data structures and algorithms of the Dystater node, with proofs of
what they keep. One module per component; every imperative method is proved against a function or
relation, and the lemmas beside it say what that function or relation means.

| file | component |
|---|---|
| `AddrTables.dfy`, `AddrMan.dfy` | the stochastic address manager: five indexes and three counters kept in step by every operation and run |
| `AddrCheck.dfy` | its executable self-check, characterised exactly |
| `AddrSerial.dfy` | its serialiser, which drops most indexes and rebuilds them |
| `Primes.dfy`, `Fips180.dfy`, `WordBytes.dfy`, `Sha512.dfy` | the streaming SHA-512 object as a refinement of FIPS 180-4 |
| `Miner.dfy`, `MinerChoice.dfy`, `MinerSafety.dfy`, `MinerValue.dfy` | block assembly: selection loop, which transaction is next and which is taken, safety of every selection, conservation of value |
| `Merkle.dfy` | tree, branch and branch check; which lists share a root |
| `NetReceive.dfy`, `NetSend.dfy` | incremental message framing; partial sends |
| `CoinSelection.dfy`, `CreateTransaction.dfy` | coin selection and the fee retry loop |
| `KeyPool.dfy`, `KeyPoolRuns.dfy` | key pool and key loans; when a run issues an index twice |
| `Confirmed.dfy`, `SpentFlags.dfy` | the confirmation work queue; spent flags with the credit cache |
| `Chain.dfy`, `MedianTime.dfy` | active chain index, fork search, locator; median time |
| `BaseUint.dfy` | limb arithmetic and the work of a block |
| `LimitedMap.dfy` | the size-limited map with reverse index |
| `Units.dfy` | printing and reading amounts |
| `Common.dfy` | small shared facts |

Random draws (positions, factors, the coin search, the place of the change) are arbitrary values, so
every statement holds for all of them. Address and pair hashes, script checks, priorities, fees
demanded, sizes and clocks are parameters. Ids, counts and amounts are unbounded integers unless the
text of a member says otherwise; times and byte counts wrap where the source's types do.

`dafny verify dfyconfig.toml` checks the whole project.

Where the code and what is said about it differ, the code is modelled:

- `SelectTried` remembers the place before its swap, so the position returned need not hold the least
  recently successful entry inspected (`AddrMan.EvictionCanMissTheOldest`, and for all draws
  `AddrMan.OldestSelectedExactlyWhen`).
- `Check_` looks an address up with an inserting lookup and does not see every inconsistency
  (`AddrCheck.CheckCharacterized`, `AddrCheck.CheckMissesAddressOfZero`).
- `limitedmap` keeps one element fewer than its limit, and the entry dropped is the least of the old
  ones, not of all (`LimitedMap.KeepsHighestExactlyWhen`); inserting into an empty map with limit one
  reads the first entry of an empty index (`LimitedMap.Limited.Insert`).
- SHA-512 padding is the standard's only below 2^61 bytes (`Sha512.PaddingAgrees`).
- The key pool issues an index a second time whenever it is topped up without its newest index
  (`KeyPool.ReissuedExactlyWhenNewestIsGone`, `KeyPoolRuns.LentAndIssuedAgain`, `KeyPoolRuns.Run`).
- The scan of the memory pool drops the record of a waiting transaction with a missing input while
  references to it remain (`Miner.DanglingArises`); block assembly is undefined exactly when such a
  reference is reached (`Miner.CreateNewBlock`).
- A Merkle root does not determine the list of transactions (`Merkle.SameRootCharacterized`).
- In `src/wallet.cpp` the local `vCoins` of line 1266 is read as the shuffled list of outputs that the
  loop at line 1272 iterates over, and `fRReachedTarget` of line 1218 as `fReachedTarget`.

## Model

| member | source | states |
|---|---|---|
| `AddrTables.TableSizes` | `src/addrman.cpp:441-497` | in consistent tables nTried + nNew is the length of vRandom and the number of entries, counted over the tried and the untried ids |
| `AddrTables.SwapPositionsKeeps` | `src/addrman.cpp:112-130` | trading two places of the random order, positions included, keeps the tables consistent |
| `AddrTables.UnrefKeeps` | `src/addrman.cpp:170-207` | dropping one reference, and with the last one the entry from every index, keeps the tables consistent, also while a newly announced entry still waits for its bucket |
| `AddrTables.CreatedKeeps` | `src/addrman.cpp:100-110` | a new entry joins id index, address index and random order; only its promised bucket is still missing |
| `AddrTables.InsertKeeps` | `src/addrman.cpp:329-372` | putting the announced entry into a bucket with room settles the promise and keeps everything else |
| `AddrTables.RefRaiseKeeps` | `src/addrman.cpp:355-372` | raising a reference count leaves exactly that entry short of one bucket |
| `AddrTables.StatsUpdateKeeps` | `src/addrman.cpp:377-394` | an update of times and attempts alone touches none of the indexes |
| `AddrTables.UntriedHasBucket` | `src/addrman.cpp:295-311` | every untried entry is in some new bucket, so the search of Good_ cannot come back empty |
| `AddrTables.DetachedIsHomeless` | `src/addrman.cpp:212-221` | after the loop over all new buckets the entry is in none of them and every other entry is as before |
| `AddrTables.PlacedKeeps` | `src/addrman.cpp:224-236` | appending the detached entry to its tried bucket with room restores the invariant |
| `AddrTables.EvictedKeeps` | `src/addrman.cpp:238-265` | replacing a tried entry, which returns to a new bucket with exactly one reference, restores the invariant, whatever position of the reordered bucket is replaced |
| `AddrMan.Manager.constructor` | `src/addrman.h:384-392` | the empty manager is consistent |
| `AddrMan.Manager.Find` | `src/addrman.cpp:87-98` | finds an entry by network address exactly when the index has it |
| `AddrMan.Manager.SwapRandom` | `src/addrman.cpp:112-130` | the new tables are the old ones with two positions traded |
| `AddrMan.Manager.SelectTried` | `src/addrman.cpp:132-154` | the bucket is shuffled as drawn, up to four entries to the front, and the position returned is the place drawn in the round that met the least recently successful of them; it then holds such an entry exactly when that draw left the entry in place, or when the place was inspected too and its entry ties with it |
| `AddrMan.EvictionCanMissTheOldest` | `src/addrman.cpp:142-149` | a two-entry bucket and draws with which the position returned holds the more recently successful entry |
| `AddrMan.OldestSelectedExactlyWhen` | `src/addrman.cpp:132-154` | for every bucket, draws and round of the best entry: the position drawn in that round holds an oldest entry inspected exactly when the draw equals the round, or is a place inspected whose entry has the same time of success |
| `AddrMan.WithoutTiesTheDrawDecides` | `src/addrman.cpp:132-154` | when the times of success inspected differ, exactly when the draw equals the round |
| `AddrMan.Manager.ShrinkNew` | `src/addrman.cpp:156-208` | one entry of the full bucket loses its place: result 0 and the first entry not worth keeping if there is one, else 1 and one not seen later than the up to four drawn with it |
| `AddrMan.WorthKeepingUnlessTerrible` | `src/addrman.cpp:42-60` | an entry is kept exactly when it was tried in the last minute, or was seen within thirty days and not more than ten minutes ahead of the clock, with fewer than three attempts before a first success and fewer than ten in a week without one |
| `AddrMan.Manager.OldestOfFour` | `src/addrman.cpp:181-196` | the victim is a member of the bucket, least recently seen among at most four members drawn |
| `AddrMan.Manager.Detach` | `src/addrman.cpp:212-221` | the loop over all new buckets removes the entry from every one and from the count of new entries |
| `AddrMan.Manager.MakeTried` | `src/addrman.cpp:210-266` | the entry is promoted as specified, the evicted one goes to its own new bucket or, if that is full, to the one just left; the invariant holds again |
| `AddrMan.OriginHasRoom` | `src/addrman.cpp:252-258` | the bucket the promoted entry has left has fewer than 64 entries, so the eviction certainly finds a place there |
| `AddrMan.PromotionKeepsEntries` | `src/addrman.cpp:210-266` | a promotion deletes no entry and the promoted one ends up tried |
| `AddrMan.EnteringKeepsEntries` | `src/addrman.cpp:319-375` | entering a bucket deletes at most one untried entry other than the one that enters; the tried table is untouched |
| `AddrMan.Manager.Good_` | `src/addrman.cpp:268-317` | the known service is tried afterwards, with the time given as last success, last try and, in 32 bits, time seen, no attempts and no reference; every other entry changes its table at most; no entry appears or disappears; invariant and order of times kept |
| `AddrMan.Manager.Attempt_` | `src/addrman.cpp:377-394` | only the attempt statistics of exactly this service change |
| `AddrMan.Manager.Connected_` | `src/addrman.cpp:516-534` | only the time of exactly this service changes, and only when it is more than twenty minutes old |
| `AddrMan.Manager.Create` | `src/addrman.cpp:100-110` | the new entry gets the next id and the last position |
| `AddrMan.Manager.Add_` | `src/addrman.cpp:319-375` | unroutable addresses change nothing; a known entry gets the services announced besides its own, its time becomes the announced less the penalty (zero at least, 32 bits) exactly when it has none or that is more than an hour later, a day for an announcement not of the last day, and it gets at most one more reference, only of a later announcement for an untried entry with fewer than four; an unknown address gets the next id with the announced services, source and time; at most one untried entry is displaced and no tried one touched; the invariant holds again |
| `AddrMan.RefreshedIs` | `src/addrman.cpp:327-353` | the update of time, services and references in terms of the announcement alone |
| `AddrMan.Manager.AddReference` | `src/addrman.cpp:355-372` | one more reference in the bucket for this source, unless it is there already |
| `AddrMan.Manager.GetAddr_` | `src/addrman.cpp:500-514` | 23 percent of the known addresses, 2500 at most, each with the service, service bits and time of its entry; only the random order is permuted |
| `AddrMan.Step` | `src/addrman.cpp:100-534` | every operation keeps the invariant; only a promotion can take an entry out of the tried table, and it deletes nobody |
| `AddrMan.Run` | `src/addrman.cpp:100-534` | from the empty manager every run, with any hashing and any random draws, ends consistent, and with times in order when the times given are positive |
| `AddrCheck.Check_` | `src/addrman.cpp:441-497` | the executable check returns 0 exactly when the stated conditions hold of the tables |
| `AddrCheck.ConsistentPasses` | `src/addrman.cpp:441-497` | a consistent manager passes its own check |
| `AddrCheck.CheckCharacterized` | `src/addrman.cpp:441-497` | the check accepts exactly the consistent managers, up to the four things it does not look at |
| `AddrCheck.CheckMissesAddressOfZero` | `src/addrman.cpp:463-464` | a manager with all its buckets and one entry, consistent but for the address of entry 0 missing from the address index, passes: the lookup inserts the missing id as 0 |
| `AddrSerial.Write` | `src/addrman.h:274-317` | what is written is the header, the untried entries, the tried entries, and each new bucket as places in that order |
| `AddrSerial.Read` | `src/addrman.h:318-381` | reading what was written for some tables succeeds and gives them with renumbered ids, no tried entry lost |
| `AddrSerial.RenumberedIsConsistent` | `src/addrman.h:318-381` | tables equal up to renumbering and reload defaults are consistent again |
| `AddrSerial.RoomForTried` | `src/addrman.h:346-358` | a tried entry not read yet always finds room in the bucket its hash selects |
| `AddrSerial.RoundTrip` | `src/addrman.h:250-381` | writing and reading back gives a consistent manager equal to the first up to ids, order, and the last try |
| `Fips180.KIsPrime` | `src/crypto/sha512.cpp:54-147` | the t-th of the eighty numbers beside the round constants is the prime with exactly t primes before it |
| `WordBytes.RoundConstantsFromCubeRoots` | `src/crypto/sha512.cpp:54-147` | the t-th round constant, as a number, is the first 64 fractional bits of the cube root of the t-th prime (section 4.2.3 of FIPS 180-4) |
| `WordBytes.InitialHashFromSquareRoots` | `src/crypto/sha512.cpp:36-46` | word i of the initial state, as a number, is the first 64 fractional bits of the square root of the i-th prime (section 5.3.5) |
| `WordBytes.AddIsModular` | `src/crypto/sha512.cpp:27-33` | addition of words is addition of their numbers modulo 2^64 |
| `WordBytes.ReadIsBigEndian` | `src/crypto/sha512.cpp:54-71` | the word read from eight bytes is the number they spell, the first byte the most significant |
| `WordBytes.WriteIsBigEndian` | `src/crypto/sha512.cpp:205-212` | the eight bytes written for a word spell its number |
| `WordBytes.ByteIsDigit` | `src/crypto/sha512.cpp:205-212` | byte j of n spelling a number is its digit to the base 256 of weight n - 1 - j |
| `WordBytes.BlockIsBigEndian` | `src/crypto/sha512.cpp:54-71` | word j of a block is the number its bytes 8 j to 8 j + 7 spell |
| `WordBytes.DigestBytes` | `src/crypto/sha512.cpp:205-212` | bytes 8 i to 8 i + 7 of the digest are the digits of word i of the state |
| `WordBytes.PaddedBytes` | `src/crypto/sha512.cpp:198-206` | the padded message is the message, a byte 128, zeros, and sixteen bytes that spell its length in bits, in as few whole blocks as that takes |
| `Primes.SievedArePrimes` | `src/crypto/sha512.cpp:54-147` | below 23 * 23 the sieve by the primes up to 19 leaves exactly the primes |
| `Fips180.ZeroBitsLeast` | `src/crypto/sha512.cpp:198-206` | the padding uses the least number of zero bits of section 5.1.2 |
| `Fips180.ZeroBytes` | `src/crypto/sha512.cpp:198-206` | for whole bytes those zero bits are 7 and then 0 to 127 zero bytes, the number Finalize computes |
| `Sha512.ChoiceIsStandard` | `src/crypto/sha512.cpp:18-18` | the exclusive-or form of Ch is the function of the standard |
| `Sha512.MajorityIsStandard` | `src/crypto/sha512.cpp:19-19` | the and-or form of Maj is the function of the standard |
| `Sha512.SigmaIsStandard` | `src/crypto/sha512.cpp:20-23` | the shift-and-or forms are the rotations and shifts of the standard |
| `Sha512.Round` | `src/crypto/sha512.cpp:27-33` | one call is one step of section 6.4.2 under the renaming of the registers |
| `Sha512.ScheduleStep` | `src/crypto/sha512.cpp:73-147` | renewing a schedule word in the place of the one sixteen rounds earlier gives the word of the 80-word schedule |
| `Sha512.FirstHalf` | `src/crypto/sha512.cpp:54-62` | rounds 0 to 7 in the renamed registers on the first eight words of the block, which are those of the schedule |
| `Sha512.SecondHalf` | `src/crypto/sha512.cpp:63-71` | rounds 8 to 15 on the other eight words |
| `Sha512.RenewLow` | `src/crypto/sha512.cpp:73-147` | eight rounds, each first renewing one of the lower eight words in its place |
| `Sha512.RenewHigh` | `src/crypto/sha512.cpp:73-147` | the next eight, with the upper eight words |
| `Sha512.MoreRounds` | `src/crypto/sha512.cpp:73-147` | sixteen further rounds, each renewing one word in place, are sixteen steps of the standard |
| `Sha512.Transform` | `src/crypto/sha512.cpp:49-157` | one block in place is the compression of the standard, of sixteen words that are the numbers its bytes spell |
| `Sha512.WrapKeepsBuffer` | `src/crypto/sha512.cpp:171-175` | the number of buffered bytes can be read off the byte count although that wraps at 64 bits |
| `Sha512.BlockCompleted` | `src/crypto/sha512.cpp:176-182` | completing the buffer moves the boundary between hashed and buffered bytes |
| `Sha512.CSHA512.Write` | `src/crypto/sha512.cpp:171-196` | the state after a write is that of the longer message, however it is cut into pieces |
| `Sha512.CSHA512.Finalize` | `src/crypto/sha512.cpp:198-213` | the digest of section 6.4 for every message below 2^61 bytes: eight bytes for each word of the final state in order, each byte the digit of its weight |
| `Sha512.PaddingAgrees` | `src/crypto/sha512.cpp:198-206` | the padding is the standard's exactly for messages below 2^61 bytes |
| `Sha512.CSHA512.Reset` | `src/crypto/sha512.cpp:215-220` | after a reset the object is that of the empty message, whatever was written before |
| `Sha512.HashPieces` | `src/crypto/sha512.cpp:166-213` | for every way of cutting a message into writes the result is its SHA-512 digest, byte by byte the state after the blocks of the padded message |
| `Miner.ScanInputs` | `src/miner.cpp:160-202` | an orphan record with exactly the parents in the pool, or none when an input is missing or nothing is waited for; the lists of dependers stay exact; when an input is missing after others that wait, those are remembered as the lists with a dangling reference |
| `Miner.BuildQueues` | `src/miner.cpp:145-219` | every candidate is recorded once: with parents in the pool as an orphan waiting for exactly those, the others queued; the lists with a dangling reference are exactly those for inputs that wait before the first missing input |
| `Miner.ClosedIsNotDangling` | `src/miner.cpp:170-184` | in a pool closed under parents no record of a waiting transaction is dropped |
| `Miner.DanglingArises` | `src/miner.cpp:170-184` | a pool of two transactions in which a dropped record leaves a reference to it |
| `Miner.TopExists` | `src/miner.cpp:60-82` | the comparator always leaves some greatest entry |
| `Miner.PopHeap` | `src/miner.cpp:230-238` | an entry is taken out, the others stay, and none of them has a higher fee rate, or the same one and a higher priority, when the order is by fee, and the other way round when it is by priority |
| `Miner.Release` | `src/miner.cpp:296-311` | exactly those that waited for this transaction alone are queued, once, and no other set of dependencies changes |
| `Miner.FreedBecomesReady` | `src/miner.cpp:296-311` | after a transaction is taken, what is newly ready is exactly what is released |
| `Miner.TopIsNext` | `src/miner.cpp:230-262` | the top of the queue is a ready transaction, not examined before, than which no ready one is better in the current order |
| `Miner.CreateNewBlock` | `src/miner.cpp:145-319` | the loop ends; some log of it exists that examines exactly the candidates whose parents in the pool are in the block, best first, takes exactly the admissible ones, and accounts for the transactions, fees, signature operations and size returned; the behaviour is undefined exactly from the first transaction taken whose list holds a dangling reference, and never in a pool without one |
| `MinerChoice.BestGoesFirst` | `src/miner.cpp:60-82` | every transaction examined can go, was not examined before, and no other such one beats it: by fee rate and then priority once the selection is by fee, before by priority and then fee rate |
| `MinerChoice.WhenByFee` | `src/miner.cpp:222-262` | the selection is by fee from the start exactly when nothing is reserved for priority, and otherwise from the first transaction on that fits, is not a free one past the minimum size, and passes the reserved size or is of low priority |
| `MinerChoice.TakenExactlyWhen` | `src/miner.cpp:240-281` | a transaction examined is taken exactly when it keeps both budgets, is not a free one past the minimum size, has all inputs unspent after those taken before, and passes the script checks |
| `MinerChoice.NothingIsPassedBy` | `src/miner.cpp:228-313` | at the end every transaction that can go has been examined |
| `MinerChoice.BlockEntries` | `src/miner.cpp:265-292` | beside each transaction of the block stand its signature operations, those of its inputs included, and its fee, what it spends less what it pays |
| `MinerChoice.CoinsAfterOneMore` | `src/miner.cpp:279-281` | after each transaction of the block its outputs are unspent with their values and what it spends is gone; nothing else changes |
| `MinerSafety.ExaminedOnce` | `src/miner.cpp:230-313` | no transaction is examined twice |
| `MinerSafety.BlockDistinct` | `src/miner.cpp:230-313` | no transaction is in the block twice |
| `MinerSafety.ParentsComeFirst` | `src/miner.cpp:296-311` | the block holds pool candidates only, each after all its parents in the pool |
| `MinerSafety.WithinBudgets` | `src/miner.cpp:240-277` | header allowance plus sizes stays below the size limit and the signature operations below theirs |
| `MinerSafety.TotalsOfBlock` | `src/miner.cpp:283-292` | the running totals and the coin view are those of the transactions taken so far |
| `MinerSafety.InputsUnspent` | `src/miner.cpp:265-281` | when its turn comes every input of a transaction of the block is unspent |
| `MinerSafety.NothingSpentTwice` | `src/miner.cpp:265-281` | no two inputs in the block name the same output |
| `MinerSafety.FeesBalance` | `src/miner.cpp:286-319` | the list of fees with the balancing first entry sums to zero |
| `MinerSafety.EveryBlockIsSafe` | `src/miner.cpp:145-319` | every block the loop can return: distinct pool transactions, each with all inputs unspent at its turn, within both budgets, with fees that sum to zero |
| `MinerValue.TakingCostsTheFee` | `src/miner.cpp:267-281` | spending the inputs and adding the outputs lowers the worth of the unspent outputs by the fee |
| `MinerValue.FeesAreAllThatDisappears` | `src/miner.cpp:230-313` | worth of the unspent outputs before = worth after the block + its fees |
| `Merkle.Block.BuildMerkleTree` | `src/primitives/block.h:116-133` | the flat list holds all levels in order and the result is the recursive root, 0 for no transactions |
| `Merkle.Block.HashPairs` | `src/primitives/block.h:124-129` | the inner loop appends the level above |
| `Merkle.Block.GetMerkleBranch` | `src/primitives/block.h:143-157` | reads the neighbours on the way to the root off the tree there is, of whatever transactions, and builds the tree only when there is none; with the tree of the current transactions this is their branch |
| `Merkle.Block.CheckMerkleBranch` | `src/primitives/block.h:159-172` | 0 for index -1, otherwise the value the leaf and branch climb to |
| `Merkle.BranchReachesRoot` | `src/primitives/block.h:143-172` | for every non-empty list and valid index the branch taken from the tree leads its leaf back to the root |
| `Merkle.ClimbIsInjective` | `src/primitives/block.h:159-172` | two leaves with branches of one length that climb to one value at one index are equal, or the hash collides |
| `Merkle.OnlyTheLeafIsAccepted` | `src/primitives/block.h:159-172` | only the leaf at the index with its own branch reaches the root, or the hash collides |
| `Merkle.SameRootAtOneDepth` | `src/primitives/block.h:116-133` | two lists of one depth have the same root exactly when, filled up by repeating the tails of the levels, they are the same list (or the hash collides) |
| `Merkle.SameRootCharacterized` | `src/primitives/block.h:116-133` | any two non-empty lists have the same root exactly when the shallower one and the level of the other at its depth, both filled up, are the same list (or the hash collides) |
| `Merkle.InnerNodeSharesRoot` | `src/primitives/block.h:116-133` | for every hash the list of one inner node shares the root of its two leaves |
| `Merkle.EqualLengthEqualRoot` | `src/primitives/block.h:116-133` | lists of equal length with the same root are equal, or the hash collides |
| `Merkle.RepeatedLastSharesRoot` | `src/primitives/block.h:124-129` | repeating the last of an odd number of leaves does not change the root |
| `NetReceive.CNetMessage.ReadHeader` | `src/net.cpp:594-623` | takes bytes up to the end of the header; negative exactly when the header asks for more than the maximum, and ever after |
| `NetReceive.CNetMessage.ReadData` | `src/net.cpp:625-641` | takes bytes up to the end of the message; the buffer exceeds neither the message nor the data by more than 256 KiB |
| `NetReceive.CNetMessage.Absorb` | `src/net.cpp:575-586` | one step of a message is feeding those bytes to its stream |
| `NetReceive.CNode.ReceiveMsgBytes` | `src/net.cpp:563-592` | receiving bytes is feeding them to the byte stream: same messages, same remainder, false exactly when a header was refused; every call ends |
| `NetReceive.ParseContinues` | `src/net.cpp:563-592` | parsing a longer stream continues where parsing the shorter one stopped |
| `NetReceive.FeedInPieces` | `src/net.cpp:563-592` | messages and verdict do not depend on how the bytes are split |
| `NetReceive.FeedAllIsParse` | `src/net.cpp:563-592` | any split of a stream into calls gives the messages of the whole stream |
| `NetReceive.NothingIsLost` | `src/net.cpp:563-641` | the bytes consumed are exactly the headers and payloads in order; only what follows a refused header is dropped |
| `NetReceive.FramesAreWhole` | `src/net.cpp:615-623` | every message has a header of 24 bytes and the length in its bytes 16 to 19, lowest first, at most the maximum; what is left over is a header that asks for more exactly when the stream is refused, and else less than a message |
| `NetReceive.Session` | `src/net.cpp:925-935` | a whole connection, buffer by buffer until disconnected, ends with the messages and the verdict of its byte stream |
| `NetSend.SendQueue.SocketSendData` | `src/net.cpp:650-692` | the socket gets the next pending bytes, as many as its answers take; the rest stays pending; the source's three assertions hold; disconnected exactly on a fatal answer |
| `NetSend.SendQueue.OfferAll` | `src/net.cpp:655-685` | offset, size and byte counters stay exact while message after message is offered |
| `NetSend.TurnStops` | `src/net.cpp:655-685` | a turn takes some messages whole and of the next what the last answer takes; it breaks the connection exactly when that answer is an error |
| `NetSend.SendQueue.Push` | `src/net.h:414-414` | a finished message joins the pending bytes and the size counter |
| `NetSend.Connection` | `src/net.cpp:650-692` | over a whole connection the bytes on the wire followed by the pending ones are the messages pushed, in order |
| `CoinSelection.ApproximateBestSubset` | `src/wallet.cpp:1203-1249` | for all random bits: a marked subset worth nBest, at least the target and at most the total |
| `CoinSelection.SortByValue` | `src/wallet.cpp:1324-1324` | the same coins in descending order |
| `CoinSelection.MarkedIsPart` | `src/wallet.cpp:1342-1347` | the marked coins are coins of the list, each once, worth no more than all |
| `CoinSelection.SelectCoinsMinConf` | `src/wallet.cpp:1251-1356` | false exactly when no distinct spendable coins of the required depth are worth the target; otherwise such coins worth nValueRet, the target itself or a cent more unless no such coins are worth that, never more than a single sufficient coin with change to spare, and a single coin when one matches |
| `CoinSelection.AffordsExactlyWhen` | `src/wallet.cpp:1272-1306` | some eligible coins are worth a target exactly when all of them together are |
| `CoinSelection.SelectCoins` | `src/wallet.cpp:1358-1363` | succeeds exactly when distinct spendable coins, confirmed or unconfirmed change, are worth the target; all coins are six deep, or one if from this wallet, when such coins suffice |
| `CreateTransaction.AddUp` | `src/wallet.cpp:1370-1378` | refused exactly when there is no payee or a running sum of the amounts is negative |
| `CreateTransaction.Create` | `src/wallet.cpp:1368-1483` | the retry loop ends; one input for each coin chosen, distinct and spendable; payee k gets its value, in order, with the change before one of them; inputs = payees + change + fee; fee at least the configured rate for each thousand bytes begun and the minimum asked; sub-cent change only under a full minimum fee; no key on loan without change, and with change one unless a locked wallet has run out, when the change goes to the default key; failure only for the stated reasons |
| `CreateTransaction.MoveToFee` | `src/wallet.cpp:1407-1415` | change and fee keep their sum; sub-cent change remains only when the fee has reached the minimum |
| `CreateTransaction.BuildTx` | `src/wallet.cpp:1396-1447` | output k pays payee k its value, change stands before a random one of them, input k spends coin k, the key is taken or returned accordingly, in any state of the wallet |
| `CreateTransaction.OutputsTotal` | `src/wallet.cpp:1396-1440` | the outputs add up to payees and change wherever the change is put |
| `KeyPool.Wallet.TopUpKeyPool` | `src/wallet.cpp:1717-1741` | a locked wallet is left alone; otherwise the wanting indices are added with new keys; a sound wallet stays sound, with no index issued twice, exactly when nothing is wanting or the newest index is in the pool |
| `KeyPool.ToppedByRange` | `src/wallet.cpp:1729-1736` | a top-up by n adds exactly the n indices that follow the largest |
| `KeyPool.AddedByKeeps` | `src/wallet.cpp:1729-1738` | while the newest index is in the pool keys can be added without touching the record of a reserved one |
| `KeyPool.AddedByRepeats` | `src/wallet.cpp:1729-1738` | a sound pool without its newest index repeats one as soon as a key is added |
| `KeyPool.Wallet.ReserveKeyFromKeyPool` | `src/wallet.cpp:1743-1768` | in any state: the least index of the topped-up pool goes to its holder with its stored key, -1 exactly for an empty locked pool; sound afterwards exactly when the top-up repeats nothing |
| `KeyPool.TakenKeeps` | `src/wallet.cpp:1759-1762` | taking the least index keeps the three kinds of index apart and, with another left, the newest in the pool |
| `KeyPool.Wallet.KeepKey` | `src/wallet.cpp:1785-1794` | the index leaves for good and its record is erased |
| `KeyPool.KeptKeeps` | `src/wallet.cpp:1785-1794` | keeping a reserved index keeps the state sound, and steady |
| `KeyPool.Wallet.ReturnKey` | `src/wallet.cpp:1796-1804` | the index goes back to the pool |
| `KeyPool.ReturnedKeeps` | `src/wallet.cpp:1796-1804` | returning a reserved index keeps the state sound, and steady |
| `KeyPool.Wallet.GetKeyFromPool` | `src/wallet.cpp:1806-1828` | a key never kept before, kept from now on; an empty locked pool gives the default key or nothing; sound afterwards unless the top-up repeats an index |
| `KeyPool.Wallet.GetOldestKeyPoolTime` | `src/wallet.cpp:1830-1839` | the oldest key is looked at and put back; loans and kept indices are unchanged |
| `KeyPool.CReserveKey.GetReservedKey` | `src/wallet.cpp:1841-1857` | the same key until it is kept or returned; the default key exactly when a locked wallet has run out; other loans are untouched; a loan safe to return stays so |
| `KeyPool.CReserveKey.KeepKey` | `src/wallet.cpp:1859-1865` | the loan is empty and its index kept |
| `KeyPool.CReserveKey.ReturnKey` | `src/wallet.cpp:1867-1873` | the loan is empty and its index back in the pool |
| `KeyPool.LoansAreApart` | `src/wallet.cpp:1841-1873` | two live loans share neither index nor key, and neither index is in the pool or kept |
| `KeyPool.ReissuedExactlyWhenNewestIsGone` | `src/wallet.cpp:1728-1738` | with the indices issued being 1 to some N and the pool any part of them, adding keys issues an index a second time exactly when N is not in the pool |
| `KeyPool.DrainedExactlyWhenTargetIsZero` | `src/wallet.cpp:1727-1761` | taking the oldest key of an unlocked wallet empties the pool exactly for a target of zero and at most one key |
| `KeyPoolRuns.LentAndIssuedAgain` | `src/wallet.cpp:1717-1804` | a run with target one that locks, lends two keys, takes one back, unlocks and tops up: an index is on loan and in the pool at once, although the pool was not empty |
| `KeyPoolRuns.TargetOfZeroReissues` | `src/wallet.cpp:1727-1761` | with target zero any number of loans in a row are all of index 1 |
| `KeyPoolRuns.Step` | `src/wallet.cpp:1717-1873` | any call, on the wallet or a loan, with any target, locked or not: what is sound and apart stays so if the call repeats no index, and otherwise an index has been issued twice |
| `KeyPoolRuns.Run` | `src/wallet.cpp:1717-1873` | in every run, with any target and any locking, an index is issued a second time exactly when some call tops the pool up while the newest index is not in it; otherwise loans are apart and an index once kept is never in the pool or on loan again; never with a positive target and no locking |
| `Confirmed.IsConfirmed` | `src/wallet.h:546-587` | the growing work queue ends on every acyclic graph and answers whether the transaction is settled |
| `Confirmed.HeadGivesWay` | `src/wallet.h:562-584` | replacing the head of the queue by its parents lowers the work left and keeps the answer |
| `Confirmed.SettledCharacterized` | `src/wallet.h:546-587` | settled exactly when everything reachable through unconfirmed transactions is final, present, and confirmed or from this wallet |
| `Confirmed.MapOfIs` | `src/wallet.h:573-577` | a hash leads to a supporting transaction exactly when one has it, and to the last of several |
| `SpentFlags.Outputs.MarkSpent` | `src/wallet.h:453-463` | exactly the one output becomes spent, or nothing for an index out of range; a cached credit stays right |
| `SpentFlags.Outputs.UpdateSpent` | `src/wallet.h:420-436` | flags are taken over where there are flags; true exactly when one changed; a cached credit stays right |
| `SpentFlags.Outputs.GetAvailableCredit` | `src/wallet.h:499-523` | with or without cache the credit of the unspent outputs, or the exception exactly when a partial sum leaves the range of money |
| `SpentFlags.SpendingTakesAway` | `src/wallet.h:499-523` | more spent outputs never leave more credit |
| `SpentFlags.UnspentIsSum` | `src/wallet.h:499-523` | the credit is the sum over the outputs without a set flag |
| `Chain.CChain.SetTip` | `src/chain.cpp:14-24` | afterwards entry i is the ancestor of the new tip at height i for every i, although the walk stops at the first match |
| `Chain.RightBelow` | `src/chain.cpp:20-23` | where the old array agrees with the new branch at one height it agrees at all lower ones |
| `Chain.CChain.FindFork` | `src/chain.cpp:54-60` | the highest ancestor of the block that is an entry of the chain, or none exactly when no ancestor is |
| `Chain.CChain.ContainsExactly` | `src/chain.h:381-383` | the test at the height of a block tells whether it is an entry of the chain |
| `Chain.CChain.SharedBelowFork` | `src/chain.cpp:54-60` | everything below a shared ancestor is shared |
| `Chain.CChain.GetLocator` | `src/chain.cpp:26-52` | the hashes of the ancestors of the start block at the locator heights, at most 12 + log2 of its height, the same by array and by links; the step does not overflow below height 2^30 |
| `Chain.LocatorFalls` | `src/chain.cpp:26-52` | the heights fall strictly from the start to genesis |
| `Chain.LocatorIsShort` | `src/chain.cpp:26-52` | from height h at most 12 + log2(h) entries |
| `Chain.LocatorHeightIs` | `src/chain.cpp:26-52` | entries 0 to 10 go down one by one, entry i after that is 9 + 2^(i - 10) below the start, and the first at genesis is the last |
| `MedianTime.GetMedianTimePast` | `src/chain.h:226-238` | the array filled backwards and sorted gives the median of the last eleven times, fewer near genesis |
| `MedianTime.MedianIsMiddle` | `src/chain.h:236-237` | the median is one of the times, with at most half of them earlier and the others not |
| `MedianTime.MedianTimePastIs` | `src/chain.h:226-238` | the median time is that of the last eleven times, or of all up to height nine |
| `MedianTime.TimesAre` | `src/chain.h:226-235` | time i is that of the ancestor i blocks back, as far as the span or genesis |
| `MedianTime.UpdateTime` | `src/miner.cpp:84-86` | the new time is past the median and not before the adjusted time, as long as it fits 32 bits |
| `MedianTime.MedianStep` | `src/chain.h:226-238` | a block later than the median before it does not lower the median, in windows of any length |
| `MedianTime.MedianNeverDecreases` | `src/chain.h:226-238` | along any chain of such blocks the median is at least that of every ancestor |
| `BaseUint.Uint.AddAssign` | `src/uint256.h:140-150` | addition modulo 2^BITS, for any width, also onto itself |
| `BaseUint.Uint.Complement` | `src/uint256.h:44-50` | 2^BITS - 1 minus the value |
| `BaseUint.Uint.Negate` | `src/uint256.h:52-59` | the negative modulo 2^BITS |
| `BaseUint.Uint.SubAssign` | `src/uint256.h:152-156` | subtraction modulo 2^BITS |
| `BaseUint.Uint.Increment` | `src/uint256.h:175-182` | one more modulo 2^BITS, with early end of the carry |
| `BaseUint.Uint.Decrement` | `src/uint256.h:192-199` | one less modulo 2^BITS, with early end of the borrow |
| `BaseUint.Uint.ShiftLeft` | `src/uint256.h:106-121` | multiplication by 2^shift modulo 2^BITS for every shift |
| `BaseUint.Uint.ShiftRight` | `src/uint256.h:123-138` | division by 2^shift rounded down for every shift |
| `BaseUint.Uint.Less` | `src/uint256.h:210-220` | comparison of the values |
| `BaseUint.Uint.Equals` | `src/uint256.h:258-264` | equality of the values |
| `BaseUint.BitOrDisjoint` | `src/uint256.h:106-138` | bits that do not overlap add up under or |
| `BaseUint.TopDecides` | `src/uint256.h:210-256` | the highest differing limb decides the comparison |
| `BaseUint.GetBlockProof` | `src/pow.cpp:101-114` | floor(2^256 / (target + 1)) for every nonzero target below 2^256 - 1, although 2^256 does not fit; 0 for negative, overflowing or zero targets |
| `LimitedMap.Limited.Insert` | `src/limitedmap.h:38-49` | a new key is added; when that fills the map an entry of least value among the old ones goes; the index stays exact; undefined exactly for an empty map with limit one |
| `LimitedMap.Limited.Erase` | `src/limitedmap.h:50-64` | exactly the key goes; the search through equal values always finds it |
| `LimitedMap.Limited.Update` | `src/limitedmap.h:65-81` | exactly the value of the key changes; the search through equal values always finds it |
| `LimitedMap.Limited.Position` | `src/limitedmap.h:55-63` | the entry of the key is found in the range of equal values, so the assertion behind the loop is unreachable |
| `LimitedMap.Limited.SetMaxSize` | `src/limitedmap.h:83-92` | entries of least value are dropped down to the new size; the size is below the new limit exactly when it was before |
| `LimitedMap.KeepsHighestExactlyWhen` | `src/limitedmap.h:11-47` | an insertion that drops an entry keeps the highest values exactly when the new value is not below the least old one |
| `LimitedMap.HighestCanGo` | `src/limitedmap.h:41-45` | a concrete insertion that drops the higher of two entries |
| `LimitedMap.Run` | `src/limitedmap.h:31-81` | without limit or with one of at least two every run is defined, keeps index and map in step and stays below the limit; with limit one exactly the runs without insertion are defined |
| `Units.Format` | `src/qt/dystaterunits.cpp:93-118` | sign, whole number without zeros in front, point, and at least two places of which more than two do not end in zero; read with 8, 5 or 2 decimal places as the unit has, the text is the amount |
| `Units.ReadingMeans` | `src/qt/dystaterunits.cpp:125-160` | any sign, whole digits and decimal digits read as the amount they denote in the unit, unless the unit has fewer places or there are more than eighteen characters |
| `Units.TrimmingIsUndone` | `src/qt/dystaterunits.cpp:106-110` | padding on reading brings back the zeros trimmed on printing |
| `Units.NumberLength` | `src/qt/dystaterunits.cpp:103-104` | a printed number has at most k digits exactly when it is below 10^k |
| `Units.SplitAtDot` | `src/qt/dystaterunits.cpp:130-142` | a printed amount splits into its whole and decimal part |
| `Units.RoundTrip` | `src/qt/dystaterunits.cpp:93-160` | for every unit, sign option and amount: reads back exactly when it has at most eighteen characters without the point, and then as itself |
| `Units.RoundTripWithoutPlus` | `src/qt/dystaterunits.cpp:93-160` | without plus sign exactly the amounts between -10^17 and 10^18 read back |
| `Units.ReadingIsStable` | `src/qt/dystaterunits.cpp:125-160` | whatever was read prints to something that reads back the same |

## Left out

- AddrMan.Run: `Select_` and `GetChance` (floating point rejection sampling), locks and logging are not modelled; ids and counters are unbounded, so 32-bit overflow of nIdCount is not.
- AddrMan.Manager.SelectTried: does not promise the least recently successful entry in general, because the code stores the position before its swap; it promises exactly when.
- AddrMan.Manager.Add_: the chance of another reference is any choice, not the distribution of the random factor.
- AddrSerial.Read: the stream is a list of typed items, not bytes; an address file with another number of new buckets and the state left behind by a failed read are not modelled.
- AddrSerial.Write: only consistent managers are written.
- Sha512.CSHA512.Finalize: the output array is a sequence; sizes of single writes are not limited to a machine word.
- Miner.CreateNewBlock: the heap is any bag with a greatest element, not its array layout; priorities and fee rates are integers standing for ordered floating point keys; the coinbase transaction, header fields, GetNextWorkRequired and the final ConnectBlock are left out; sizes and signature operations do not overflow.
- Miner.CreateNewBlock: nothing is said of a run after a dangling reference is read, which is undefined behaviour in C++; references to a dropped record leave the lists at once and are remembered by the transactions they wait for.
- The clamping of the block size options (src/miner.cpp:117-138): it would only add easy members.
- Merkle.Block.GetMerkleBranch: a leftover tree must be long enough for the places read; the code reads past its end otherwise.
- NetReceive.CNode.ReceiveMsgBytes: receive times and the removal of processed messages from the front are left out; MAX_SIZE is a parameter because serialize.h is not part of this model.
- NetReceive.Session: the socket itself, errors and graceful close are left out.
- NetSend.SendQueue.Push: EndMessage has no body in the sources; its effect on the queue is taken as appending the message and adding its size.
- CoinSelection.SelectCoinsMinConf: requires positive values below the largest 64-bit number; sums do not overflow; CENT is a parameter. Which of the sufficient subsets is found depends on the random bits and is not stated.
- CreateTransaction.Create: what it says of the change key in a wallet that has already issued an index twice is only that none is on loan without change; priority, size, signing and minimum fee are parameters; copying of supporting transactions is left out.
- KeyPool.Wallet.ReserveKeyFromKeyPool: a missing record is returned as no key instead of an exception; proved impossible while no index has been issued twice.
- KeyPool.CReserveKey.GetReservedKey: an empty default key is returned as no key instead of failing the assertion; Valid and the apartness of loans are promised only until an index is issued a second time.
- KeyPoolRuns.Run: NewKeyPool (on encryption it clears the pool and numbers from 1 again), AddReserveKey (called nowhere), the key times and database failures are left out; the destructor of a loan is its ReturnKey.
- Confirmed.IsConfirmed: requires an acyclic graph, given by a rank; transaction hashes cannot form cycles.
- SpentFlags.Outputs.GetAvailableCredit: the credit of each output is fixed; the other cached sums follow the same pattern and are left out.
- Chain.CChain.GetLocator: GetAncestor's skip list is not part of this model and is given by its meaning.
- MedianTime.UpdateTime: the change of nBits on test networks is left out; beyond 32 bits the time wraps and nothing is promised.
- BaseUint.Uint.Less: <=, > and >= are the same loop with other results; the 64-bit operand forms, hexadecimal conversion and the plain bitwise operators are left out.
- BaseUint.GetBlockProof: SetCompact is not part of this model, the decoded target and its flags are parameters; the all-ones target, which no compact form encodes, would divide by zero and is excluded; division is given by its meaning.
- LimitedMap.Limited.Insert: nothing is said of the map after the undefined insertion into an empty map with limit one.
- Units.RoundTrip: the least 64-bit number, whose negation overflows, is excluded; blanks that toLongLong skips around a number are not modelled.
- Sockets, threads, scripts, signatures, encryption, databases, RPC and user interface are outside this model.
