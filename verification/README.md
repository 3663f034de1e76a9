# Verified models of the Inferno emulator's hard core

This project models seven parts of the Inferno emulator and its cryptography library in Dafny and proves what
they are for. `dafny verify dfyconfig.toml` checks all of it.

1. **The append-only file system** of `emu/devtinyfs.c` (`Tiny*.dfy`). Files are chains of checksummed 48-byte
   blocks; a write lays its new blocks last to first and links them in with one block write. The medium is an
   array, the table and bit map a class, a crash a stop after any block write. Mounting is specified on *every*
   medium, and whole runs with a crash at any point, followed by mounting what is left, are proved to lose
   nothing but the operation that was under way.
2. **The pool allocator** of `emu/alloc.c` (`Pool*.dfy`). Boundary tags tile each chain of memory; free blocks
   sit in a parent-linked tree of sizes with a ring of blocks at every node. Every call keeps the whole invariant,
   allocation is best fit, the pool grows by exactly stated amounts, and in any run blocks in use stay apart and
   untouched.
3. **Multi-precision arithmetic** of `crypt` (`Words`, `Karatsuba`, `Big*`, `Modulo`, `Montgomery`, `Powers`,
   `Brickell`, `Fermat`, `Rsa`). Numbers are arrays of 32-bit words changed in place; the meaning is the natural
   number. From the word loops up to RSA by the Chinese remainder theorem, each routine is proved to compute its
   mathematical value, or the exact condition under which it does not is proved.
4. **Block ciphers** of `crypt/idea.c` and `crypt/des.c` (`FermatPrime`, `Idea`, `IdeaMeaning`, `Des`,
   `DesMeaning`): deciphering undoes enciphering for every expanded key, and both are the ciphers' own equations.
5. **The mount protocol** of `emu/styx.c` and `emu/devmnt.c` (`Styx`, `StyxWire`, `MountMux`, `MountProgress`,
   `MountQueue`): the message codec byte by byte and over any chunking of the stream, and the multiplexer as a
   state machine of any number of callers, interruptions and a server, over all interleavings: nobody gets a wrong
   reply, and everybody whose reply comes can return.
6. **The virtual machine's hand-off and the queue locks** of `emu/dis.c`, `emu/proc.c` and `emu/lock.c` (`Procs`,
   `VmToken`, `VmWaiting`, `VmSched`, `VmRunq`, `QueueLocks`, `ReaderWriter`, `ReaderWriterProgress`): state
   machines over any number of procs with one step for each section under a spin lock, and classes over the linked
   queues that refine those steps; safety, bounded waiting and progress.
7. **The secure record layer** of `emu/devssl.c` (`Bits`, `SslCipher`, `SslRecord`, `SslWire`, `SslStream`): what one
   side writes is what a synchronised other side reads, for any writes, chunking and read sizes, and what it accepts
   has the right digest.

`Octets`, `Sequences`, `Multiples` and `Arith` hold what several parts share.

## Model

| member | source | states |
|---|---|---|
| TinyFormat.Checksum | emu/devtinyfs.c:86-95 | the checksum kept in one byte is the sum of the block's bytes modulo 256 |
| TinyFormat.Validate | emu/devtinyfs.c:137-181 | reading a block through its checksum, tag and link gives exactly the cell the format defines, or junk |
| TinyFormat.Complete | emu/devtinyfs.c:194-238 | the byte put last makes the 48 bytes sum to zero |
| TinyFormat.DecodeEnd | emu/devtinyfs.c:194-217 | an end block reads back with its length and just its bytes |
| TinyFormat.DecodeData | emu/devtinyfs.c:194-217 | a data block reads back with its link and always 44 bytes, zero-padded |
| TinyFormat.DecodeDir | emu/devtinyfs.c:220-238 | a directory block reads back with its name, pin and first block, and that of an empty file reads as none |
| TinyLayout.DecodeMeans | emu/devtinyfs.c:137-181 | a block is taken for a directory, data or end block just if its bytes are: tag, two bytes low first, name or data in their places, and the sum zero |
| TinyLayout.EncodeMeans | emu/devtinyfs.c:194-217 | data and end blocks are written with those bytes |
| TinyLayout.EncodeDirMeans | emu/devtinyfs.c:220-238 | a directory block is written with those bytes, and of its name at most 27 |
| TinyLayout.ChangeFound | emu/devtinyfs.c:86-181 | a block with any one byte changed is taken for nothing |
| TinyMap.MapSet | emu/devtinyfs.c:104-107 | marks one block in the bit map and no other |
| TinyMap.MapClr | emu/devtinyfs.c:98-101 | frees one block in the bit map and no other |
| TinyMap.IsAlloced | emu/devtinyfs.c:110-113 | whether the block is marked |
| TinyMap.MapAlloc | emu/devtinyfs.c:116-134 | takes the least free block below nblocks, and reports none if and only if there is none |
| TinySpec.TextAt | emu/devtinyfs.c:707-774 | block k of a chain holds the bytes of the file from 44k on |
| TinySpec.CatalogueUnique | emu/devtinyfs.c:356-438 | a consistent medium has one meaning: its directory blocks, chains and names are determined |
| TinySpec.FollowMeaning | emu/devtinyfs.c:406-437 | on any medium the walk over a chain ends, visits fresh distinct linked blocks, and stops only at an end block, a block in use, or one that is no data |
| TinySpec.FollowChain | emu/devtinyfs.c:406-437 | and on any medium a chain of distinct blocks that are not marked is followed to its end |
| TinyMount.MountSound | emu/devtinyfs.c:356-438 | mounting any medium leaves entries that head valid, acyclic, pairwise disjoint chains, all marked, of the length recorded |
| TinyMount.MountComplete | emu/devtinyfs.c:356-438 | mounting a consistent medium changes nothing, keeps every file with its chain, and marks exactly the blocks in use |
| TinyMount.MountStable | emu/devtinyfs.c:356-438 | what mounting leaves is consistent, and mounting it again leaves it as it is |
| TinyMount.TableHolds | emu/devtinyfs.c:406-437 | the table after mounting gives the medium's meaning: no block serves two files |
| TinyMount.PurgeStep | emu/devtinyfs.c:265-281 | removing a file whose chain is broken keeps every other file |
| TinyUpdate.RecoveryIsMounting | emu/devtinyfs.c:356-438 | to recover some files means: mounting leaves the medium unchanged and shows exactly these |
| TinyUpdate.TableRecovers | emu/devtinyfs.c:356-438 | at any time a crash would recover exactly the files with data that the table holds |
| TinyUpdate.LaidHarmless | emu/devtinyfs.c:816-838 | laying new blocks before they are linked changes no file, for clients and for a crash |
| TinyUpdate.LinkFirst | emu/devtinyfs.c:865-869 | the directory write of an empty file gives it exactly the laid bytes, with their length |
| TinyUpdate.LinkInPlace | emu/devtinyfs.c:870-879 | rewriting the last block as a longer end block appends exactly the data, with the new length |
| TinyUpdate.Link | emu/devtinyfs.c:870-879 | the last block rewritten as a data block joins the two texts with the gap its padding leaves, and without a gap if and only if it is full |
| TinyUpdate.LinkOn | emu/devtinyfs.c:870-879 | the entry after filling up and linking on: its text is the old one, the fill, the gap and the laid text, its chain the two chains |
| TinyUpdate.Relink | emu/devtinyfs.c:865-879 | one block write that gives a file new content changes that file and no other, in the table and for a crash |
| TinyUpdate.Unlink | emu/devtinyfs.c:265-281 | blanking a directory block removes that file and no other, in the table and for a crash |
| TinyUpdate.Create | emu/devtinyfs.c:301-348 | an empty file's directory block adds the file for clients and nothing for a crash |
| TinyUpdate.EmptyEndLeavesGap | emu/devtinyfs.c:870-879 | an append behind an empty last block leaves 44 zero bytes between the old and the new data |
| TinyUpdate.SomeMediumEndsEmpty | emu/devtinyfs.c:870-879 | a medium of three blocks that mounts with such a file |
| TinyFs.Attach | emu/devtinyfs.c:356-438 | mounting any device computes what the specification of mounting says; a medium that recovers some files is unchanged and shows just them |
| TinyFs.Tfs.FindFiles | emu/devtinyfs.c:382-403 | the first pass finds every directory block and marks it |
| TinyFs.Tfs.FollowFiles | emu/devtinyfs.c:406-437 | the second pass follows, measures and marks each chain or purges its file, as specified |
| TinyFs.Tfs.FreeBlocks | emu/devtinyfs.c:241-262 | frees exactly the blocks of the path given |
| TinyFs.Tfs.LayBlocks | emu/devtinyfs.c:816-838 | lays exactly the blocks the data needs, or gives all back and fails if and only if too few are free; any crash meanwhile recovers the old files |
| TinyFs.Tfs.Write | emu/devtinyfs.c:781-891 | appends exactly the data (if and only if the last block is not empty; else 44 zero bytes come between), fails for lack of space if and only if there is too little and then changes nothing, and every crash recovers the old files, or after the last block write the new ones |
| TinyFs.Tfs.Read | emu/devtinyfs.c:707-774 | returns exactly the requested part of the file's bytes, clipped at its end |
| TinyFs.Tfs.NewFile | emu/devtinyfs.c:301-348 | creates an empty file in the first free entry, its name cut to the field, fails if and only if no block is free, and takes one block |
| TinyFs.Tfs.Remove | emu/devtinyfs.c:636-648 | removes that file alone with one block write and frees exactly its blocks |
| TinyRun.Perform | emu/devtinyfs.c:301-348 | each operation acts on files and free space as an exact abstract machine, and a crash in it recovers the state before or after |
| TinyRun.Run | emu/devtinyfs.c:781-891 | in any run of creations, appends and removals every state follows the abstract machine, and a crash at any block write recovers the state before or after the operation that made it |
| TinyRun.CrashAndMount | emu/devtinyfs.c:356-438 | mounting what a crash left gives the files with data just before or just after the operation cut short, ready for use |
| Words.Lmult | crypt/longmult.c:33-59 | adds a word times a number to another, leaving the exact carry |
| Karatsuba.LessThan | crypt/fastmult.c:79-97 | compares two numbers of equal length |
| Karatsuba.RecursiveMultiply | crypt/fastmult.c:116-180 | the product of two numbers of n words, with nothing written outside result and scratch space, for every length down to any cutoff |
| Karatsuba.RecursiveSquare | crypt/fastmult.c:199-243 | the square, likewise |
| Karatsuba.SquareN | crypt/coremult.c:47-69 | the square from the diagonal and the doubled cross products |
| BigNum.BigInt.Trim | crypt/bignum.c:506-514 | drops leading zero words and the sign of zero, and keeps the value |
| BigNum.BigCompare | crypt/bigCompare.c:11-32 | the order of the magnitudes, whatever leading zeros the operands have |
| BigNum.BigAddition | crypt/bigmath.c:23-96 | the sum of the magnitudes, also in place |
| BigNum.BigSub | crypt/bigmath.c:111-179 | the difference of the magnitudes, exact in place if and only if no borrow is lost, and by how much it is off otherwise |
| BigNum.LosesWhenBorrowLost | crypt/bigmath.c:105-179 | a borrow is lost on the words if and only if it is by the values: the low part of the larger is below the smaller |
| BigNum.DifferenceExact | crypt/bigSubtract.c:12-53 | the signed difference is exact if and only if no borrow is lost from an operand that is also the result |
| BigNum.BigSubtract | crypt/bigSubtract.c:12-53 | the signed difference, with the loss in place, and its sign |
| BigNum.BigAdd | crypt/bigAdd.c:12-38 | the signed sum, with the loss in place, and its sign |
| BigNum.BigCopy | crypt/bigCopy.c:11-41 | value, sign and length of the copy |
| BigShift.ShiftWordsLeft | crypt/bigmath.c:184-235 | times W^n, also in place |
| BigShift.ShiftWordsRight | crypt/bigmath.c:239-271 | divided by W^n, in place |
| BigShift.BigLeftShift | crypt/bigLeftShift.c:62-83 | times 2^n for any n |
| BigShift.BigRightShift | crypt/bigRightShift.c:60-69 | divided by 2^n for any n, in place |
| BigMult.NumtypeBigmult | crypt/coremult.c:72-113 | adds a word times a number, some words up, to another |
| BigMult.Lbigmult | crypt/bigmath.c:277-297 | the product, word by word |
| BigMult.Bigsquare | crypt/bigmath.c:300-312 | the square, word by word |
| BigMult.GetRecurseLen | crypt/fastmult.c:58-71 | the largest power of two that fits |
| BigMult.CleanMult | crypt/fastmult.c:247-281 | completes the product of the low words to the whole product |
| BigMult.FastMult | crypt/fastmult.c:286-317 | the product, for all lengths and any cutoff |
| BigMult.FastSquare | crypt/fastmult.c:355-380 | the square, for all lengths and any cutoff |
| BigMult.BigMultiply | crypt/fastmult.c:385-396 | the signed product, with the cutoffs of the usual build |
| BigMult.BigMultiplyFrom | crypt/fastmult.c:385-396 | the signed product with any cutoffs |
| BigDivide.HalfDigit | crypt/longBigDivide.c:65-104 | a 16-bit digit of the quotient: the estimate is never too small and comes down to the true digit |
| BigDivide.LongBigDivide | crypt/longBigDivide.c:20-112 | the exact quotient of two words by a normalised word above the high one |
| Modulo.MsbIs | crypt/bignum.c:81-107 | the table look-up gives the position of the top bit |
| Modulo.QuotientDigit | crypt/bigMod.c:83-104 | the estimate comes down to the digit that two words of the modulus allow |
| Modulo.DigitBound | crypt/bigMod.c:83-113 | that digit is the true digit or one more, so one addition back is enough |
| Modulo.TakeOff | crypt/bigMod.c:105-113 | subtracts the row and adds back once, in place, without a lost borrow |
| Modulo.ResidueMeaning | crypt/bigMod.c:21-124 | the value computed is congruent and at most m, and m itself if and only if the number is m times a power of W |
| Modulo.BigMod | crypt/bigMod.c:21-124 | computes that residue with the operand's sign for every number and modulus of at least two words, restores the modulus, and answers for moduli zero and one |
| Montgomery.ModInverse | crypt/bigPow.c:21-41 | minus the inverse of an odd word modulo 2^32 |
| Montgomery.Redc | crypt/bigPow.c:80-109 | brings T below N times W^n to a number at most N that times W^n is congruent to T |
| Powers.ResForm | crypt/bigPow.c:56-74 | the Montgomery form of any number |
| Powers.BuildAddChainTable | crypt/bigPow.c:112-132 | the table of the powers below the sixteenth |
| Powers.Bigpow | crypt/bigPow.c:189-245 | a number at most N congruent to the power, for nonzero base and exponent; and what it gives for zeros |
| Powers.BigPow | crypt/bigPow.c:336-374 | exactly the power modulo an odd modulus of at least two words, if and only if the exponent or the base raised is not zero |
| Powers.BaseIsZero | crypt/bigPow.c:346-349 | the base raised is zero if and only if the given one is a multiple of the modulus but not the modulus times a power of W |
| Brickell.G16Bigpow | crypt/brickell_bigpow.c:14-57 | the table of the base raised to the powers of sixteen |
| Brickell.BuildCoeffTable | crypt/brickell_bigpow.c:60-98 | for each digit value the product of the table entries at the places that have it |
| Brickell.TailsAreNumber | crypt/brickell_bigpow.c:113-124 | the sums of all tails of places add up to the exponent |
| Brickell.BrickellBigpow | crypt/brickell_bigpow.c:101-131 | congruent to the power by the exponent modulo 16 to the size of the table, which is the exponent if the table covers it |
| Brickell.TablePower | crypt/brickell_bigpow.c:14-131 | the two together: congruent to the power |
| Fermat.FermatUnit | crypt/rsa.c:248-272 | a number prime to p, raised to p - 1, is one modulo p |
| Fermat.Exponent | crypt/rsa.c:248-272 | an exponent that is one modulo p - 1 leaves every number alone modulo p |
| Rsa.BigCube | crypt/bigCube.c:11-22 | the cube modulo m |
| Rsa.Negate | crypt/negate.c:12-35 | minus a modulo p |
| Rsa.CrtCombine | crypt/crtCombine.c:12-36 | the number its in-place arithmetic puts together, lost borrows and all |
| Rsa.CombinedMeaning | crypt/crtCombine.c:12-36 | that number is congruent to both parts if and only if no borrow is lost, and is then below p*q |
| Rsa.RSAEncrypt | crypt/rsa.c:311-328 | the power by the public exponent, at most the modulus |
| Rsa.RSADecrypt | crypt/rsa.c:331-350 | the two powers modulo p and q, put together |
| Rsa.ChineseUnique | crypt/rsa.c:248-272 | numbers below p*q that agree modulo both primes are equal |
| Rsa.RoundTripNumbers | crypt/rsa.c:248-272 | each power is the message modulo its prime, and what is put together is the message if and only if no borrow is lost |
| Rsa.RoundTrip | crypt/rsa.c:311-350 | the two in turn: decryption gives back the message, for every message below the modulus, if and only if no borrow is lost |
| Rsa.SomeMessageIsLost | crypt/crtCombine.c:20-31 | for every key with a large enough q, a message that does not come back |
| PoolTree.FoundBySize | emu/alloc.c:132-209 | every block of the tree is in the ring that a search for its size finds |
| PoolTree.SubstLinked | emu/alloc.c:132-209 | putting a linked subtree in a place, with the pointer above, keeps the tree linked |
| PoolBlocks.ChainTiled | emu/alloc.c:360-396 | from any block the blocks lead to the end mark of its chain, from a leader csize further on |
| PoolBlocks.Disjoint | emu/alloc.c:257-437 | two blocks of a tiled pool do not overlap |
| PoolBlocks.Join | emu/alloc.c:408-437 | taking in the block behind keeps the tiling |
| PoolBlocks.Split | emu/alloc.c:307-313 | giving up the rest of a block keeps the tiling |
| PoolBlocks.NewChain | emu/alloc.c:375-396 | leader, block and end mark in fresh memory extend the tiling |
| PoolBlocks.ExtendChain | emu/alloc.c:360-373 | the end mark of the first chain, become a block of fresh memory, extends the tiling |
| Pools.Pool.constructor | emu/alloc.c:93-104 | a pool without memory is sound |
| Pools.Pool.FreeApart | emu/alloc.c:408-437 | in a sound pool every free block is in the tree and no two free blocks are side by side |
| Pools.Pool.BlocksApart | emu/alloc.c:257-437 | in a sound pool blocks do not overlap, have whole units, and each tail points at its head |
| Pools.Pool.FindFit | emu/alloc.c:264-294 | the search finds a block of the size, or the smallest larger one, or shows that none fits |
| Pools.Pool.PoolAdd | emu/alloc.c:212-254 | a block joins the ring of its size or the tree: a search tree with its rings and parents again, with just that block more |
| Pools.Pool.PoolDel | emu/alloc.c:132-209 | a block leaves its ring or the tree, in every case: a search tree again, with just that block less |
| Pools.Pool.RoundedMeans | emu/alloc.c:267 | the bytes to allocate are whole units with room for header and tail |
| Pools.Pool.RoundedLeast | emu/alloc.c:267 | and the fewest such |
| Pools.Pool.GrantMeans | emu/alloc.c:324-342 | memory is refused if and only if arenasize + size + 2(quanta + 1) > maxsize; else whole units are asked for, at least size, the larger of size and chunk if that fits, and otherwise the most that fits |
| Pools.Pool.More | emu/alloc.c:324-404 | without a fit: nothing if and only if the pool has no room for the request or sbrk no memory, else a new chain or the first chain extended by just what was granted, each keeping the invariant |
| Pools.Pool.PoolAlloc | emu/alloc.c:257-405 | NIL if and only if the request is too large, or nothing fits and there is no room below maxsize or no memory; else the best fit, cut unless less than a quarter is left over, or a block of new memory; states arenasize and the chains after it, and touches no block in use; the retry after an extension ends |
| Pools.Pool.PoolFree | emu/alloc.c:408-437 | frees one block, joined with free neighbours on both sides, and touches no other |
| PoolRun.Allocate | emu/alloc.c:257-405 | a call of the allocator is such a step of a run |
| PoolRun.Return | emu/alloc.c:408-437 | a release is such a step of a run |
| PoolRun.RunKeeps | emu/alloc.c:257-437 | at any point of any run the blocks in use are those handed out and not taken back, untouched since, large enough, and apart |
| QueueLocks.QLock.Qlock | emu/lock.c:19-38 | takes a free lock, or joins the end of its queue |
| QueueLocks.QLock.CanQlock | emu/lock.c:41-52 | takes a free lock, and leaves one that is held |
| QueueLocks.QLock.Qunlock | emu/lock.c:55-71 | hands the lock to the first in the queue without freeing it, or frees it |
| ReaderWriter.RunInv | emu/lock.c:74-119 | the invariant of the reader/writer lock holds after every interleaving of any number of procs |
| ReaderWriter.Exclusion | emu/lock.c:74-119 | no writer is in with a reader or another writer |
| ReaderWriter.CanqlockServes | emu/lock.c:74-82 | the ignored result of canqlock is harmless: its spin lock is free, and readers hold k afterwards |
| ReaderWriter.HandedOver | emu/lock.c:55-71 | no lock is free while someone waits for it, and x is handed on in order of arrival |
| ReaderWriter.NoDeadlock | emu/lock.c:74-119 | while anyone is in the lock or waits for it, someone can go on |
| ReaderWriterProgress.EveryoneGetsThrough | emu/lock.c:74-119 | from every state of every run, whoever has come to read or write gets in, and everyone gets out, by further steps of those already there |
| ReaderWriterProgress.ReadersShare | emu/lock.c:74-96 | a reader that comes while others read gets in by its own six steps, with all of them still reading; one that tries does too |
| VmToken.RunInv | emu/dis.c:484-608 | the invariant of the scheduler holds after every interleaving of any number of procs |
| VmToken.OneToken | emu/dis.c:484-608 | the machine is idle, or run by one proc, or being handed over once: exactly one of these |
| VmToken.OneSleeper | emu/dis.c:717-723 | two procs never sleep on irend, and Sleep never finds another there |
| VmToken.HandOverCompletes | emu/dis.c:530-587 | a hand-over reaches the proc it is for |
| VmToken.NoLostWakeUp | emu/proc.c:7-45 | a proc in the queue while the holder sleeps has a wake-up on its way that ends the sleep |
| VmToken.ServedInOrder | emu/dis.c:484-608 | the procs of vmq are handed the machine first come, first served |
| VmWaiting.HandsOver | emu/dis.c:541-570 | while vmq is not empty, every release or yield of the holder hands the machine to its first proc, which is counted as served |
| VmWaiting.ReceiverWaited | emu/dis.c:541-570 | and whoever is handed the machine in that time was first in vmq, never an interpreter thread of idlevmq |
| VmWaiting.ServedAfter | emu/dis.c:484-587 | bounded waiting: in any run the proc at place k of vmq is being handed the machine after k + 1 releases or yields of the holder |
| VmWaiting.NobodyBetween | emu/dis.c:484-587 | and until then only those ahead of it in vmq are |
| VmWaiting.AcquireTakes | emu/dis.c:484-509 | acquire takes an idle machine, or joins the end of vmq |
| VmWaiting.ReleaseToIdle | emu/dis.c:530-556 | with nobody in vmq, release hands the machine to the first of idlevmq, or leaves it idle and has a thread made unless one is being made |
| VmWaiting.YieldGivesWay | emu/dis.c:559-587 | yield gives way just if vmq is not empty, and then joins idlevmq at the front |
| VmWaiting.StartTakes | emu/dis.c:590-608 | a new thread takes an idle machine, or joins idlevmq |
| VmWaiting.GetsMachine | emu/dis.c:484-608 | whoever waits in vmq can get the machine: there is a continuation after which it holds it |
| VmSched.Isched.constructor | emu/dis.c:773-810 | the state that disinit leaves |
| VmSched.Isched.Acquire | emu/dis.c:484-509 | the section on the linked queues is the abstract step, and who must wait or wake |
| VmSched.Isched.Release | emu/dis.c:530-556 | the section on the linked queues is the abstract step: vmq first, then an idle thread, then a new one, which the lemmas of VmWaiting pin on the step |
| VmSched.Isched.Yield | emu/dis.c:559-587 | the section is the abstract step |
| VmSched.Isched.Startup | emu/dis.c:590-608 | the section is the abstract step |
| VmRunq.RunQueue.AddRun | emu/dis.c:382-396 | a thread goes to the end of the run queue |
| VmRunq.RunQueue.DelRun | emu/dis.c:399-410 | the first thread leaves the run queue |
| VmRunq.RunQueue.DelRunq | emu/dis.c:413-431 | a thread leaves the run queue, wherever it is |
| VmRunq.RunQueue.DelRunTail | emu/dis.c:434-442 | the last thread leaves the run queue |
| VmRunq.RunQueue.PushRun | emu/dis.c:813-822 | a thread goes to the front of the run queue |
| VmRunq.RunQueue.Rotate | emu/dis.c:739-746 | after its turn the first thread goes to the end |
| VmRunq.TurnNearer | emu/dis.c:730-746 | in every turn of another a ready thread comes one place nearer, whatever joins and leaves, but for threads pushed in front |
| VmRunq.Served | emu/dis.c:730-746 | a thread that stays ready runs within as many turns as threads are ahead of it, and two for every one pushed in front |
| FermatPrime.ModulusIsPrime | crypt/idea.c:22-35 | 65537 is prime |
| Idea.ModIsProduct | crypt/idea.c:22-35 | the short form multiplies modulo 65537, with 0 for 65536 |
| Idea.ModUndone | crypt/idea.c:22-60 | multiplying by a half and then by its inverse gives back every half |
| Idea.Inv | crypt/idea.c:38-60 | the inverse of every half, by the extended Euclidean algorithm with bounded coefficients |
| Idea.IdeaKeySetupDecrypt | crypt/idea.c:63-77 | the second half of the key undoes the first, which is left alone |
| Idea.MixedTwice | crypt/idea.c:117-125 | the mixing step is its own inverse |
| Idea.StepsUndone | crypt/idea.c:109-126 | n steps of deciphering undo the last n of enciphering |
| Idea.CipherUndone | crypt/idea.c:99-131 | with a key and one that undoes it, each ciphering undoes the other on every text |
| Idea.IdeaCipher | crypt/idea.c:99-131 | the loop computes in place the ciphering that IdeaMeaning.IdeaMeans spells out |
| Idea.IdeaRoundTrip | crypt/idea.c:63-131 | for every expanded key, deciphering what was enciphered gives the text back |
| IdeaMeaning.ModIsTimes | crypt/idea.c:22-35 | the short form is the product modulo 65537, and commutes |
| IdeaMeaning.IdeaMeans | crypt/idea.c:99-131 | the ciphering is the eight rounds and the output transformation of IDEA, as equations between words, and nothing else is |
| Bits.XorDigit | crypt/idea.c:10 | a binary digit of an exclusive or is one just where those of the numbers differ |
| Des.FinalOfInitial | crypt/des.c:749-803 | the final permutation undoes the initial one |
| Des.InitialOfFinal | crypt/des.c:749-803 | and the initial one the final one |
| Des.Ip | crypt/des.c:749-769 | the table loop is the initial permutation |
| Des.Ip1 | crypt/des.c:775-803 | the table loops are the final permutation, in place |
| Des.RoundsUndone | crypt/des.c:953-1011 | n rounds with the keys in reverse undo the last n, for any round function |
| Des.CipherUndone | crypt/des.c:953-1011 | enciphering and deciphering undo each other for every key, block and round function |
| Des.BlockCipher | crypt/des.c:953-1011 | the loop computes in place the ciphering that DesMeaning.CipherMeans spells out |
| Des.TripleUndone | crypt/des.c:1015-1026 | triple ciphering in any mode is undone in the mode with its bits reversed and complemented |
| Des.TripleBlockCipher | crypt/des.c:1015-1026 | the loop computes in place the triple ciphering that DesMeaning.TripleMeans spells out |
| DesMeaning.PermutedIs | crypt/des.c:749-803 | the initial permutation takes just the bits of the table IP of FIPS 46-3, bit by bit, and the final one puts them back |
| DesMeaning.CipherMeans | crypt/des.c:953-1011 | the ciphering is sixteen rounds of halves with next L = R and next R = L xor f(R, key), the keys backwards to decipher, between the permutations with the halves exchanged at the end, and nothing else is |
| DesMeaning.TripleMeans | crypt/des.c:1015-1026 | triple ciphering is three such passes, each with the direction its mode bit says and the keys that go with it |
| Styx.MsgLenIsTotal | emu/styx.c:39-73 | the table of header lengths agrees with the fields of every type |
| Styx.RoundTrip | emu/styx.c:116-381 | a message followed by anything reads back with its length and its fields |
| Styx.PrefixIsPart | emu/styx.c:116-258 | a strict prefix of a message reads as more to come |
| Styx.TooLong | emu/styx.c:116-258 | a message with a count above MAXFDATA is refused |
| Styx.ParseStable | emu/styx.c:116-258 | more bytes do not change what was found |
| Styx.NeverFull | emu/devmnt.c:651-726 | a full buffer never holds only part of a message |
| Styx.ConvS2M | emu/styx.c:261-381 | writes at the head of the buffer just the bytes that StyxWire.EncodedOnWire spells out, and refuses unknown types |
| Styx.ConvM2S | emu/styx.c:116-258 | reads just the messages that StyxWire.TakenOnWire, Taken and Refused spell out |
| StyxWire.EncodedOnWire | emu/styx.c:6-24 | for every type, each field of the message stands in its bytes, low byte first, with nothing else; the high half of an offset is zero |
| StyxWire.TakenOnWire | emu/styx.c:26-38 | what is taken has in each field what stands in its bytes, and ends where its type and count say |
| StyxWire.Taken | emu/styx.c:116-258 | the bytes of every message, whoever wrote them, are taken, if the count is at most MAXFDATA |
| StyxWire.Refused | emu/styx.c:116-258 | a head is refused if and only if its type is none or its count is above MAXFDATA |
| Styx.ReadMessage | emu/devmnt.c:651-726 | a message is read from the bytes alone, whatever the pieces they come in, and no byte is lost; reading stops before a whole message only at the end of the stream or after as many reads as given |
| Styx.ReadStream | emu/devmnt.c:651-726 | the messages read are the messages sent, in order, whatever the pieces, and all of them if the channel brings something in every read |
| MountMux.RunInv | emu/devmnt.c:588-816 | the invariant of the multiplexer holds after every interleaving of callers, interruptions and server |
| MountMux.OneReader | emu/devmnt.c:625-647 | at most one caller reads the channel |
| MountMux.BuffersApart | emu/devmnt.c:751-778 | no two RPCs share a buffer, for all the swapping |
| MountMux.RightReply | emu/devmnt.c:588-648 | a call that is done has in its buffer the reply to this use of it, or to its flush, and is off the queue |
| MountMux.CompletedByTag | emu/devmnt.c:751-778 | a call is completed by its own tag or that of the last flush it sent |
| MountMux.ReplyFindsCaller | emu/devmnt.c:751-778 | a reply to a request always finds its caller waiting |
| MountMux.LeavesOnce | emu/devmnt.c:751-778 | a completed RPC leaves the queue, once |
| MountMux.NobodyForgotten | emu/devmnt.c:729-748 | in no run does anyone sleep while nobody reads or is on the way to |
| MountProgress.Completes | emu/devmnt.c:588-778 | from every sound state, an active caller whose reply, or the reply to whose latest flush, is in the stream has a continuation without new calls after which it is done and off the queue, and then one that returns it |
| MountProgress.RunCompletes | emu/devmnt.c:588-778 | so after every run |
| MountProgress.CallReturns | emu/devmnt.c:588-778 | a new call, once its request is sent and answered, returns |
| MountProgress.FlushSent | emu/devmnt.c:781-816 | an interrupted caller sends a flush for its request with a tag of its own |
| MountQueue.Mnt.Enqueue | emu/devmnt.c:597-602 | an RPC goes to the front of the linked queue |
| MountQueue.Mnt.Remove | emu/devmnt.c:854-871 | an RPC leaves the linked queue |
| MountQueue.Mnt.MuxSection | emu/devmnt.c:751-778 | the first RPC with the tag leaves the linked queue, as in the step of the machine |
| SslCipher.CodeUndone | emu/devssl.c:1111-1232 | deciphering in the state enciphering began with gives the text and the same next state, for block ciphers in both modes and stream ciphers |
| SslCipher.DecryptJoin | emu/devssl.c:1162-1232 | deciphering goes piece by piece |
| SslCipher.IdeaIsPair | emu/devssl.c:741-755 | IDEA with an expanded key is such a cipher |
| SslWire.EncryptMeans | emu/devssl.c:1111-1159 | every block is enciphered alone, or mixed with the one enciphered before it, and every byte of a stream with its byte of the key stream; and the state after it |
| SslWire.DecryptMeans | emu/devssl.c:1162-1232 | and is deciphered so |
| SslRecord.TrimFits | emu/devssl.c:655-672 | a record takes some data, fills the cipher's blocks, and its length fits its count |
| SslRecord.BlocksFilled | emu/devssl.c:655-672 | every record fills whole blocks if and only if the digest does |
| SslRecord.RecordRead | emu/devssl.c:455-555 | a reader in step finds just the record's data, whatever follows, and is in step again |
| SslRecord.RecordPart | emu/devssl.c:455-555 | of part of a record nothing is taken |
| SslRecord.WrittenRead | emu/devssl.c:455-727 | what was written reads back, and then what follows |
| SslRecord.AllRead | emu/devssl.c:455-727 | a reader in step finds all that was written, and no bad record |
| SslWire.RecordMeans | emu/devssl.c:689-717 | a record has its count in two or three bytes, the digest of secret, data, padding and number, the data and the padding, enciphered |
| SslWire.WrittenSends | emu/devssl.c:624-727 | a write sends its data in such records, in order, each as large as its count and the cipher allow |
| SslWire.AcceptedMeans | emu/devssl.c:455-555 | a record is accepted if and only if it is whole, in blocks, and has the right digest, and its data is what was under the digest |
| SslStream.Consume | emu/devssl.c:385-405 | takes exactly n bytes off a block list |
| SslStream.Qremove | emu/devssl.c:412-452 | takes at most n bytes off, and keeps or drops the rest |
| SslStream.PullUp | emu/qio.c:185-232 | gathers n bytes in the first block without changing the bytes |
| SslStream.DecryptB | emu/devssl.c:1162-1232 | deciphers a block list however it is cut, and fails if and only if it is not whole cipher blocks |
| SslStream.EncryptB | emu/devssl.c:1111-1159 | enciphers a block from the offset on |
| SslStream.Dstate.Ensure | emu/devssl.c:350-378 | collects enough bytes, fails only at the end or on an empty block, is interrupted only after as many blocks as given, and loses no byte |
| SslStream.Dstate.CheckDigest | emu/devssl.c:1266-1305 | accepts if and only if the digest is that of secret, data and count |
| SslStream.Dstate.OpenRecord | emu/devssl.c:517-545 | opens a record's body as specified |
| SslStream.Dstate.SslBwrite | emu/devssl.c:624-727 | sends exactly the records that SslWire.WrittenSends spells out |
| SslStream.Dstate.SslBread | emu/devssl.c:455-555 | returns just the first n bytes of what is left of a record, or of the next accepted one, and keeps the rest; puts back all if interrupted, and is interrupted only after as many blocks as given |
| SslStream.Exchange | emu/devssl.c:455-727 | what is read is what was written, whatever the writes, blocks, amounts and interruptions; all of it at the end |
| SslStream.ReadToEnd | emu/devssl.c:455-727 | a reader that goes on comes to the end, and has then read all that was written, unless the channel brought an empty block |

## Findings

Properties the code is meant to have and does not, each with its exact condition and an input.

- **A file whose last block is empty grows a gap.** A medium may hold a file that ends in an end block of length
  zero behind data blocks. The next append rewrites that block as a data block with no bytes, which reads back as
  44 zero bytes (`emu/devtinyfs.c:870-879`). `TinyFs.Tfs.Write` is exact if and only if the file is empty or its
  last block is not; `TinyUpdate.SomeMediumEndsEmpty` is such a medium. This code itself never writes one
  (`Clean` is kept).
- **In-place subtraction can lose a borrow.** In its second phase `bigsub` compares a word with the operand after
  overwriting it (`crypt/bigmath.c:105-108`), so in place a borrow stops after a zero word. `BigNum.BigSub` and
  `BigNum.DifferenceExact` give the exact condition and the error, a power of W; W^2 minus 1 is such a
  difference (`Rsa.LosesOne`).
- **RSA decryption loses messages.** `crtCombine` subtracts in place (`crypt/crtCombine.c:20-31`) and inherits the
  loss. `Rsa.RoundTrip` holds if and only if no borrow is lost; `Rsa.SomeMessageIsLost` gives, for every key with
  q > 2^64, a message that comes back wrong.
- **Powers of zero.** `bigPow` gives 0 instead of 1 when the exponent is zero and the base raised is zero
  (`crypt/bigPow.c:189-245`): for the base 2N, say, but not for N, since `bigMod` leaves N itself. `Powers.BigPow`
  and `Powers.BaseIsZero` state both conditions exactly.
- **`bigMod` and `REDC` may leave the modulus** instead of zero, since both compare with `>`
  (`crypt/bigMod.c:80`, `crypt/bigPow.c:105`). `Modulo.ResidueMeaning` says when, and the bounds of everything
  above take it into account.
- **An empty file does not survive a mount**: its directory block names no block and reads as no directory
  (`TinyFormat.DecodeDir`, `TinyUpdate.Create`).
- **Digests and block ciphers.** Records fill whole cipher blocks if and only if the digest's length is a multiple
  of the block length (`SslRecord.BlocksFilled`), so not with SHA-1 and an 8-byte block cipher.
- **Memory refused by `sbrk` stays counted.** A failed `sbrk` undoes `nbrk` but not `arenasize`
  (`emu/alloc.c:350-356`): `Pools.Pool.PoolAlloc` states `arenasize` raised by the amount asked for even then, so
  every such failure brings the pool nearer to `maxsize`.
- **Padding under a digest without a cipher** is counted from the end of the body with the digest before it: none is
  taken off if it is no longer than the digest, and too little otherwise (`emu/devssl.c:517-545`,
  `SslWire.AcceptedMeans`). This code pads only for block ciphers.
- **A message asking for more than MAXFDATA** is encoded by `convS2M` and refused by `convM2S` (`Styx.TooLong`).

## Left out

- TinyFs.Tfs.Write: takes a channel whose file is in the table; the code also accepts a write on a channel whose file
  another channel removed, and then its zeroed entry names block 0 for the directory write. Reference counts,
  opening, walking and closing of channels are not modelled.
- TinyFs.Tfs.Write: when the file is empty it needs a name and pin that fit the directory block, as every name
  this code stores does; names of 28 bytes or none on media written by others are mounted and read as they are.
- TinyFs.Tfs.NewFile: needs that no file in the table has an empty name, since the code takes such an entry for a
  free one.
- Medium errors, media of more than 65535 blocks, and writes to the medium by others. One block write is atomic.
- PoolAlloc's source of memory: what `sbrk` answers is a parameter, assumed not to overlap memory in use.
- Masks with ~quanta are taken as rounding to whole units of quanta + 1, a power of two in every pool there is.
- Pool compaction and the `move` callback, the monitor, the pool's locks, `poolrealloc`, and the bytes of the data in
  blocks (that no header or tail inside a block in use is written is proved).
- BigDivide.LongBigDivide: only for a divisor with its top bit set and above the high word, as all its calls have.
- Modulo.BigMod: not for a modulus of one word above 1, for which the code reads below its numbers.
- Powers.BigPow: only for odd moduli of at least two words; the even path, `bigDivide`, `getInverse` and key
  generation are not modelled.
- BigMult.NumtypeBigmult: grows the storage for a last carry, where the code may write one word past what it reserved.
- Duff's devices are plain loops, and storage never runs out.
- Des.CipherUndone: for any round function and any round keys; the S-boxes and key schedules are not modelled, nor is
  the key schedule of IDEA for enciphering.
- MountMux.RunInv: the wrap of flush tags after 0x8000 flushes, several mounts on one channel and callers that
  give up because the channel fails for good are not modelled; an interrupted or failed write is a step.
- VmToken.RunInv: `releasex`, interrupts of sleeping procs, and the garbage collector's use of the run queue are not
  modelled.
- VmRunq.RunQueue.AddRun: threads with an `addrun` function of their own are not modelled.
- ReaderWriter.RunInv: each section under a spin lock is one step; the spin locks themselves are not modelled.
- The keystream of RC4, the hash functions and the random padding are parameters of the record layer; hang-ups and
  the control file are not modelled.
- Styx.ReadMessage: a read error and an end of file both end the stream.
- Directory entries inside messages, `exportfs`, all devices, and the host-specific files.
