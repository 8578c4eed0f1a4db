# superraid: a verified model

superraid keeps one FAT volume of application data on two equal block devices, A
and B.  A small userspace tool seals a device with a descriptor (a digest and a
CRC32C), boots from the first device that verifies, repairs the other one, and on
power down freezes the volume, seals the active device and copies it to its peer.
The volume itself is served by a modified Linux FAT driver whose new part is a
write gate.  This project models both and proves what they keep.

Every `.dfy` file is one module; `dafny verify dfyconfig.toml` checks them all.

| module | models |
|---|---|
| `AbProtocol` | the A/B protocol as a state machine with the power going at any moment |
| `AbStorage` | seal, verify, copy, mount, recovery and power prepare on two devices; every device state is recorded as a run of `AbProtocol` |
| `LittleEndian`, `Crc32c`, `Descriptor` | stored words, the checksum loop and the 128-byte descriptor |
| `HashRing` | the two threads that hash a device, one step per atomic access; `AbStorage` runs it for every hash |
| `FatFormat` | FAT12/16/32 entries, entry cursors, the geometry checks of a mount |
| `FatChain` | cluster chains, free counts and uncached walks, on values |
| `FatTable` | the allocation table: lookup, allocation, freeing, backup copies, counting |
| `ClusterCache`, `FatInode`, `FileBlocks` | the per-inode cluster cache, chain growth, truncation, block mapping |
| `FatVolume` | runs over many inodes of one volume |
| `WriteGate` | the write gate with any number of threads, writeback, mapped pages and the device cache |
| `LongName`, `ShortName`, `DirSlots` | long names, 8.3 aliases, adding and removing directory records |
| `ShortRead` | an 8.3 record read as a name |
| `DirGrowth`, `VfatEntry` | a directory on a chain of clusters, and a new name entered in it from end to end |
| `Sequences`, `Multiples` | storing into a sequence, and quotients |

The main results are `OneDeviceAlwaysVerifies` with `EveryStateHasADevice`,
`PrepareIsGoodIff`, `AcceptedWasSealed` with `EveryAcceptedWasSealed`,
`NewestPayloadBootsIff`, `PowerCycle`, `ReadIffDescribes`, `RunDigestsPrefix` with
`ResultIffNoTrouble`, `EveryFileCanFinishEarly` and `WholeIsThorough`,
`EveryRunCanEnd`, `ReaderEndsIffEightChunks`, `FrozenIsComplete` with `FrozenUntilReopened`,
`RunsStaySound`, `GetCluster`, `GetBlock` with `InodesNeverShare`,
`AllocClusters`, `FreeClusters`, `VfatEntry.AddEntry` with `AddThenRead`,
`AddThenRemove`, `CreateShortName`, `StoredIsHeld` and `DetectsShortBurst`.

Formats and positions are stated twice, as the code computes them and as the
bytes or numbers they are: `Describes` for the descriptor, `HoldsEntry` for a table
entry, `IsSlot` for a long-name record, `TildeName` and `HashName` for aliases,
`LiesAt` for the disk block of a file block, `NearestBehind` for the clusters that
an allocation takes.

How the model treats the outside:

* I/O errors are part of the state.  The table has sets of unreadable and
  unavailable blocks; `Faultless` says there are none.  Userspace calls take their
  answers from a list, so every pattern of short transfers, interruptions and
  refusals is covered.  When the list is used up, a call is refused.
* The payload hash is any function to 32 bytes.  What would need a hash without
  collisions is stated with the collision as the alternative.
* Threads interleave at each shared access, in one global order.  Each hash of a
  device takes its interleaving from a list of schedules and runs the ring with it.
  `CoveringRuns` counts the schedules at the front of the list that digest the
  whole payload.
* Writing a mapped page back write-protects it, so that a later store has to come
  through the gate again.
* Devices are byte sequences, a whole number of logical blocks of at least 512
  bytes long.  In `AbProtocol` a write may reach a device in any pieces, the
  descriptor too.  In `AbStorage` the copy writes whole logical blocks, as its
  O_DIRECT descriptor does, and the 128 bytes of the descriptor are one transfer.
* A directory is the sequence of its records, in the blocks that can be read.
* The character tables are any tables that never make a zero byte of a character.
  `Ascii` says that they hold ASCII with its cases; only reading a short name back
  needs it.
* `MaxFat` are the cluster limits of the kernel's msdos_fs.h, which is not part of
  the repository.

What was found to be false, and is proved with its exact condition:

* One device verifies at every moment under two conditions, which the code does
  not force.
  * The active payload is only written while the peer verifies (`Disciplined`).
    Some device keeps verifying under every write exactly when the peer verifies
    (`WritesAreSafeIffPeerVerifies`); a failed recovery leaves a volume that is
    written without it (`FailedRecoveryLosesBoth`).
  * The hash runs that a seal and the checks rely on covered the payload
    (`Covering`).  A seal leaves a good device exactly when the bytes its run saw
    hash like the payload (`SealIsGoodIff`), and after a whole power prepare either
    device is good exactly then (`PrepareIsGoodIff`).
* An error-free hash run covers the whole device exactly when the tail of the
  finish test was loaded after the last publish (`RunDigestsPrefix`); for every
  file some schedule misses the end of it (`EveryFileCanFinishEarly`) and some
  schedule does not (`WholeIsThorough`).
* The newest seal need not be the one that boots.  During the copy the next boot
  takes the newest payload exactly when A was active, A does not verify, or both
  payloads are equal (`NewestPayloadBootsIff`); `NewestSealCanBeLost` is a run in
  which it does not.
* A reader whose hasher failed to start can end without an error exactly when the
  file has at most eight chunks (`ReaderEndsIffEightChunks`).
* A second, failing call of fat_disable_write reopens a frozen volume
  (`SecondCallFails`, `SecondCallReopens`); nothing else does
  (`FrozenUntilReopened`).
* Cluster links read back exactly when the volume has no more clusters than the
  bad-cluster mark (`LinksReadBack`).  Every accepted geometry meets this except
  the largest FAT32 volume (`AcceptedIsValidIff`), which is accepted and loses the
  link to its last cluster (`LargestVolumeLosesALink`).
* A cached run from before an invalidation is refused, except when the 32-bit
  generation came round; a run begun by the walk itself is never refused
  (`StaleRunRefused`).
* A name that is stored in one 8.3 record is read back as it was created in the case
  that was noted; a mount that shows short names in lower case reads it back exactly
  when it has no letter (`ReadBack`).
* The last alias loop goes on for ever exactly when all 65536 names it can make
  are taken (`ProbeHashed`).

Where code and documentation differ the model follows the code: the design text
asks for the peer to be verified after the power-down copy, the code returns after
the fsync of the copy.

## Model

| member | source | states |
|---|---|---|
| `AbProtocol.StepIsSafe` | power-ctl/src/storage.c:648-783 | each event of boot, recovery, use, freeze, seal and copy keeps what its phase relies on, torn writes included, if the hash runs it relies on covered the payload |
| `AbProtocol.OneDeviceAlwaysVerifies` | power-ctl/src/storage.c:933-1003 | in every state of every run, stopped anywhere, A or B verifies, if the active payload changes on the device only in normal use after a successful recovery and the hash runs relied on covered the payload |
| `AbProtocol.StampIsSafe` | power-ctl/src/storage.c:194-227 | with the hash of the whole payload, writing any part of the descriptor leaves a device that verifies; `SealIsGoodIff` is the case of any other hash |
| `AbProtocol.Params.StampReadsBack` | power-ctl/src/footer.c:148-200 | a device with a new descriptor reads back its digest |
| `AbProtocol.Params.DigestIff` | power-ctl/src/footer.c:115-146 | a device carries a digest if and only if its last 128 bytes are a descriptor of it, with the size of the device less 4096 in it |
| `AbProtocol.Params.StampAgain` | power-ctl/src/storage.c:194-227 | sealing a device that verifies changes nothing, however much of the descriptor is written |
| `AbProtocol.WritesAreSafeIffPeerVerifies` | power-ctl/src/storage.c:944-986 | every write to the active payload leaves a device that verifies if and only if the peer verifies |
| `AbProtocol.FailedRecoveryLosesBoth` | power-ctl/src/storage.c:964-980 | after a recovery that failed half way, one write can leave no device that verifies |
| `AbProtocol.StepIsSourced` | power-ctl/src/storage.c:330-411 | with whole descriptor writes, every descriptor on a device stays one that a seal made |
| `AbProtocol.AcceptedWasSealed` | power-ctl/src/storage.c:594-646 | after any run with whole descriptor writes, the bytes for which a check of a device succeeds, however much its hash run covered, are bytes some seal hashed, or collide with them |
| `AbProtocol.EqualDevicesBootClean` | power-ctl/src/storage.c:694-729 | equal good devices boot the first one that mounts, with the digest of the payload, and the peer is kept without a write |
| `AbProtocol.SealIsGoodIff` | power-ctl/src/storage.c:207-221 | a device sealed with the hash of the bytes a run saw verifies if and only if they hash like the payload |
| `AbProtocol.PrepareIsGoodIff` | power-ctl/src/storage.c:753-783 | from every state in normal use, a power prepare whose hash covered n bytes runs to its end, and then a device verifies if and only if the first n bytes hash like the payload |
| `AbProtocol.NewestPayloadBootsIff` | power-ctl/src/storage.c:694-729 | from every safe state after a seal, the next boot finds a device, and it has the newest payload if and only if A was active, A does not verify, or the payloads are equal |
| `AbProtocol.NewestSealCanBeLost` | power-ctl/src/storage.c:694-729 | for every good device and every other payload there is a run that seals that payload on B and then boots A without it |
| `AbProtocol.SafeMeansOneGood` | power-ctl/src/storage.c:694-701 | every safe state has a device that verifies |
| `AbStorage.Storage.PreadFull` | power-ctl/src/common.c:124-148 | on success the buffer holds the requested bytes, whatever the short reads; it succeeds if the range exists and enough transfers are granted |
| `AbStorage.Storage.PwriteFull` | power-ctl/src/common.c:150-175 | for the copy: a first part of the data, whole logical blocks of it, is on the peer, all of it exactly on success, and every partial write is a step of the protocol |
| `AbStorage.Storage.Move` | power-ctl/src/common.c:155-172 | one transfer moves at least one unit and no more than is left, or nothing when it is refused |
| `AbStorage.Storage.PwritePeer` | power-ctl/src/common.c:155-172 | one write of the copy extends the written part and is one step of the protocol |
| `AbStorage.Storage.PwriteDescriptor` | power-ctl/src/footer.c:183-190 | the write of the descriptor is one step of the protocol that completes the seal |
| `AbStorage.Storage.PwriteFullDescriptor` | power-ctl/src/common.c:150-175 | for the descriptor: all of it is written, or nothing changes |
| `AbStorage.Storage.CopyLoop` | power-ctl/src/storage.c:379-396 | when the loop ends well, the whole peer equals the source range; the source device is untouched |
| `AbStorage.Storage.CopyRange` | power-ctl/src/storage.c:330-411 | success means equal sizes, aligned offset and length, and a byte-identical peer; with a fitting layout and nothing refused it succeeds |
| `AbStorage.Storage.HashFd` | power-ctl/src/hash.c:222-305 | runs the ring: it succeeds exactly when both threads return and nothing goes wrong under the schedule; the digest is that of the leading bytes, all of the payload exactly when the last tail is loaded in time |
| `AbStorage.Storage.ReadDescriptor` | power-ctl/src/footer.c:115-146 | what was read is the digest the device stores, or none |
| `AbStorage.Storage.VerifyPath` | power-ctl/src/storage.c:594-646 | without an I/O error, success exactly when the descriptor carries the hash of the bytes the hash run covered; an accepted device has the descriptor byte for byte, and one whose size field is not its size less 4096 is never accepted |
| `AbStorage.Storage.WriteDescriptorOf` | power-ctl/src/footer.c:148-200 | the payload stays; on success the last 128 bytes are the descriptor of the digest, byte for byte, and the eight bytes at 104 before the end are the size less 4096, lowest first |
| `AbStorage.Storage.Seal` | power-ctl/src/storage.c:194-227 | on success the active device carries the descriptor, byte for byte, of what the hash run covered and nothing else changed; with a covering run and nothing refused it succeeds with the hash of all but the last 4096 bytes |
| `AbStorage.Storage.TryMount` | power-ctl/src/storage.c:694-742 | one candidate is mounted exactly when it verifies; else the next one is tried |
| `AbStorage.Storage.Mount` | power-ctl/src/storage.c:648-751 | mounts only a device whose check succeeded; with covering hash runs and nothing refused it succeeds exactly when A or B verifies, and takes A exactly when A does |
| `AbStorage.Storage.Announce` | power-ctl/src/storage.c:710-742 | a failure after the mount unmounts again |
| `AbStorage.Storage.CopyActive` | power-ctl/src/storage.c:413-430 | the copy through the whole disk makes the peer equal to the active partition |
| `AbStorage.Storage.Restore` | power-ctl/src/storage.c:953-982 | success exactly when the check after the copy found the mounted digest; the active device is untouched |
| `AbStorage.Storage.Recover` | power-ctl/src/storage.c:933-1003 | success means a check found the mounted digest on the peer and the last two calls, which release the services and restore the settings, were granted; a peer that already has the digest is not written; with covering hash runs and nothing refused it succeeds |
| `AbStorage.Storage.DisableWrite` | power-ctl/src/storage.c:163-192 | success freezes the volume; of its calls only a failing ioctl opens a frozen volume again |
| `AbStorage.Storage.CopySealed` | power-ctl/src/storage.c:432-448 | success means A and B are equal |
| `AbStorage.Storage.Prepare` | power-ctl/src/storage.c:753-783 | success means that exactly fourteen calls were made and granted, that A and B are byte-identical and sealed over what the hash run covered, and that they verify if and only if that hashes like the payload; the active payload never changes; with a covering run and nothing refused it succeeds |
| `AbStorage.Storage.PowerCycle` | power-ctl/src/hb_powerctl_demo.c:126-132 | power prepare, power off, mount and recovery in a row, with enough answers and covering hash runs: A is mounted with the digest of the active payload, both devices are the sealed active device, and recovery writes nothing |
| `AbStorage.Storage.EveryStateHasADevice` | power-ctl/src/hb_powerctl_demo.c:126-132 | every device state these calls ever went through has a device that verifies, if the hash runs they relied on covered the payload |
| `AbStorage.Storage.EveryAcceptedWasSealed` | power-ctl/src/storage.c:594-646 | in every such state, what a check of a device accepts are bytes some seal hashed, or bytes that collide with them |
| `AbStorage.PeerStep` | power-ctl/src/storage.c:384-394 | one more piece of a copy, of whole logical blocks, is a step of the protocol and never splits the descriptor |
| `AbStorage.DescriptorStep` | power-ctl/src/footer.c:183-196 | more bytes of the descriptor are a step of the protocol |
| `Crc32c.StepsLinear` | power-ctl/src/hash.c:72-82 | the register update is linear |
| `Crc32c.StepsOneToOne` | power-ctl/src/hash.c:72-82 | the register update is one to one |
| `Crc32c.CrcOneToOne` | power-ctl/src/hash.c:74-81 | equal data keep different registers different |
| `Crc32c.CrcAppend` | power-ctl/src/hash.c:74-81 | the checksum of a concatenation continues the checksum of its front |
| `Crc32c.FourOneToOne` | power-ctl/src/hash.c:74-81 | four bytes that leave the same register are the same bytes |
| `Crc32c.DetectsShortBurst` | power-ctl/src/hash.c:85-90 | data that differ within four consecutive bytes have different checksums |
| `Crc32c.CheckValue` | power-ctl/src/hash.c:44-90 | the checksum of "123456789" is 0xE3069283, the check value of CRC-32C |
| `Crc32c.HashCrc32` | power-ctl/src/hash.c:85-90 | the loop computes the checksum and stores its four bytes, lowest first |
| `Descriptor.ReadOfEncode` | power-ctl/src/footer.c:148-181 | the descriptor of a digest reads back as that digest |
| `Descriptor.ReadIffEncoded` | power-ctl/src/footer.c:59-113 | a descriptor reads as a digest if and only if it is the descriptor of that digest |
| `Descriptor.ReadIffDescribes` | power-ctl/src/footer.c:59-113 | the check accepts a record if and only if every field, read as bytes and numbers, is right, the checksum of the blanked record included |
| `Descriptor.Build` | power-ctl/src/footer.c:169-181 | the stores into a zeroed buffer build the descriptor |
| `Descriptor.Validate` | power-ctl/src/footer.c:59-113 | the field checks accept exactly what reads back |
| `Descriptor.FixedFields` | power-ctl/src/footer.c:79-104 | the field-by-field checks accept exactly the one head |
| `Descriptor.ReservedIsZero` | power-ctl/src/footer.c:105-110 | the scan accepts exactly zero reserved bytes |
| `Descriptor.RejectsShortBurst` | power-ctl/src/footer.c:59-113 | a valid descriptor changed within four bytes, outside the checksum or exactly in it, is rejected |
| `Descriptor.StoredOnDevice` | power-ctl/src/footer.c:183-190 | storing a descriptor changes the last 128 bytes only, and the digest reads back |
| `LittleEndian.Get32Is` | power-ctl/src/common.c:69-83 | a word reads as a value exactly when its bytes are those stored for it |
| `LittleEndian.Put32Holds` | power-ctl/src/common.c:78-83 | the stored bytes are the digits of the number to base 256, lowest first |
| `LittleEndian.Get64Is` | power-ctl/src/common.c:74-88 | the same for 64 bits |
| `LittleEndian.Get64Holds` | power-ctl/src/common.c:74-76 | eight bytes read as a number exactly when they are its digits, lowest first |
| `LittleEndian.Put64Holds` | power-ctl/src/common.c:85-88 | the stored bytes are the digits of the number |
| `HashRing.ReaderKeepsInv` | power-ctl/src/hash.c:120-164 | each step of the reader keeps the ring invariant |
| `HashRing.HasherKeepsInv` | power-ctl/src/hash.c:172-220 | each step of the hasher keeps the ring invariant |
| `HashRing.SpaceIsOutside` | power-ctl/src/hash.c:134-145 | where the reader finds space, the chunk in that slot was already digested |
| `HashRing.UpdateAppends` | power-ctl/src/hash.c:197-199 | a slot being digested holds the chunk that follows the digested bytes |
| `HashRing.RunDigestsPrefix` | power-ctl/src/hash.c:185-219 | in every interleaving the digested bytes are an in-order prefix, and an error-free result is the whole file if and only if the last tail was loaded after the last publish |
| `HashRing.ResultIffNoTrouble` | power-ctl/src/hash.c:268-305 | in every interleaving there is a result if and only if both threads have returned and no thread creation, read or hash call failed at any step |
| `HashRing.OutcomeIff` | power-ctl/src/hash.c:268-305 | the same for what a schedule lets happen |
| `HashRing.HashInput` | power-ctl/src/hash.c:222-305 | under any schedule there is a result exactly when both threads return and nothing goes wrong; it is a prefix of the file, and the whole of it if and only if the schedule loads the last tail in time |
| `HashRing.WholeIsThorough` | power-ctl/src/hash.c:120-220 | for every length there is one schedule under which every file of that length is digested as a whole |
| `HashRing.FinishEarly` | power-ctl/src/hash.c:189-195 | from every level state with one chunk to go, loading the tail before the last publish and the flag after it ends the run without an error and without that chunk |
| `HashRing.EveryFileCanFinishEarly` | power-ctl/src/hash.c:189-195 | every non-empty file has an error-free schedule whose digest is not that of the file |
| `HashRing.ReaderWaitsForDeadHasher` | power-ctl/src/hash.c:178-183 | with a hasher that failed to start, the reader of more than eight chunks has not ended in any state without a read error |
| `HashRing.ReaderEndsAlone` | power-ctl/src/hash.c:120-164 | the reader of at most eight chunks can end from every such state without an error |
| `HashRing.ReaderEndsIffEightChunks` | power-ctl/src/hash.c:120-183 | from every reachable state with a hasher that failed to start, the reader can end without an error if and only if the file has at most eight chunks |
| `HashRing.EveryRunCanEnd` | power-ctl/src/hash.c:120-220 | from every reachable state with a hasher that started, errors included, both threads can still return: no run is stuck |
| `FatFormat.PutThenGet` | power-ctl/src/fat/fatent.c:120-193 | the stored bits are the value, and it decodes to itself exactly when it is the end mark or below the bad mark, for all three variants |
| `FatFormat.StoredIsHeld` | power-ctl/src/fat/fatent.c:120-154 | an entry stores x if and only if its 12, 16 or 28 bits are x, lowest first, at half byte 3e, byte 2e or byte 4e |
| `FatFormat.HeldReadsAs` | power-ctl/src/fat/fatent.c:120-154 | an entry reads as what it holds, or as the end from 0xFF7, 0xFFF7 or 0x0FFFFFF7 on |
| `FatFormat.PutHolds` | power-ctl/src/fat/fatent.c:156-193 | after a put the entry holds the value, or the end mark of the variant, and the reserved bits of FAT32 are kept |
| `FatFormat.PutKeepsOthers` | power-ctl/src/fat/fatent.c:156-193 | storing an entry changes the decoded value of no other entry |
| `FatFormat.NextIsDirect` | power-ctl/src/fat/fatent.c:195-250 | stepping a cursor gives the cursor that placing it directly gives |
| `FatFormat.NextGoesOnIff` | power-ctl/src/fat/fatent.c:195-250 | when stepping goes on: exactly while the next entry is in the block (FAT16, FAT32); on FAT12 from a split entry, or while the next one ends before the last byte of the block |
| `FatFormat.DirectCovers` | power-ctl/src/fat/fatent.c:23-118 | a placed cursor holds exactly the blocks of the entry's bytes, also when split over two |
| `FatFormat.AcceptedGeometryFits` | power-ctl/src/fat/inode.c:1834-1844 | for every accepted geometry no valid entry leaves the table's blocks |
| `FatFormat.AcceptedIff` | power-ctl/src/fat/inode.c:1834-1844 | a mount is accepted if and only if the data clusters or the table entries are few enough, and uses as many as both have |
| `FatFormat.LinksReadBack` | power-ctl/src/fat/fatent.c:120-193 | every link reads back as itself if and only if the cluster count stays at the bad mark or below |
| `FatFormat.AcceptedIsValidIff` | power-ctl/src/fat/inode.c:1834-1844 | an accepted geometry is one whose entries lie in the table and whose links read back, except exactly the FAT32 volume of the largest size |
| `FatFormat.LargestVolumeLosesALink` | power-ctl/src/fat/inode.c:1834-1844 | that volume is accepted, and the link to its last cluster reads back as the end mark |
| `FatChain.ChainIsAcyclic` | power-ctl/src/fat/fatent.c:498-527 | a chain that ends in an end mark repeats no cluster |
| `FatChain.FreeFromChain` | power-ctl/src/fat/fatent.c:554-634 | freeing from the head of a chain frees exactly its clusters |
| `FatChain.FreeFromOnlyFrees` | power-ctl/src/fat/fatent.c:554-634 | on any table, cyclic ones too, freeing ends and changes entries only to free |
| `FatChain.WalkToPosition` | power-ctl/src/fat/cache.c:225-289 | an uncached walk finds the cluster at a position of a chain |
| `FatChain.WalkToEnd` | power-ctl/src/fat/cache.c:225-289 | a walk past the end reports the last cluster and the end |
| `FatChain.ReachedIsOnChain` | power-ctl/src/fat/cache.c:225-289 | what a walk reaches is the chain's cluster at that position |
| `FatChain.Join` | power-ctl/src/fat/misc.c:107-169 | linking the last cluster to a new chain gives the joined chain and changes nothing else |
| `FatChain.SplitAndRelease` | power-ctl/src/fat/file.c:403-470 | an end mark in the middle and freeing the rest leaves exactly the prefix |
| `FatChain.GrownCount` | power-ctl/src/fat/fatent.c:498-527 | a chain that grew by n clusters took n free ones |
| `FatTable.Fat.constructor` | power-ctl/src/fat/inode.c:1749-1851 | the counter of FSINFO if it is possible, else unknown; the search position taken modulo the clusters, and at least 2 |
| `FatTable.Fat.ReadEntry` | power-ctl/src/fat/fatent.c:349-373 | decodes the entry; fails for entries out of range or unreadable ones only |
| `FatTable.Fat.WriteEntry` | power-ctl/src/fat/fatent.c:410-424 | changes that entry only, and on success all copies agree again |
| `FatTable.Fat.Mirror` | power-ctl/src/fat/fatent.c:376-408 | succeeds exactly when every buffer can be had, and then all backup copies agree on the given blocks; it never spoils agreement elsewhere |
| `FatTable.Fat.Collect` | power-ctl/src/fat/fatent.c:448-464 | the batch gains the blocks it did not hold and stays within its size |
| `FatTable.Fat.FreeEntry` | power-ctl/src/fat/fatent.c:570-624 | one pass frees one entry, counts it, and flushes a full batch before it would overflow |
| `FatTable.Fat.FreeClusters` | power-ctl/src/fat/fatent.c:554-634 | equals the reference on any table, terminates on cycles, keeps the counter in step, and leaves the copies agreeing; with faults it frees only entries that the reference frees |
| `FatTable.Fat.Scan` | power-ctl/src/fat/fatent.c:488-537 | visits entries cyclically, each at most once; a scan that fails has seen every entry |
| `FatTable.Fat.AllocClusters` | power-ctl/src/fat/fatent.c:466-552 | success links, in order, the free clusters nearest behind the last one allocated on the way round, and changes nothing else; without faults it succeeds if and only if enough are free or the trusted counter says so, and a failed scan restores the table and makes the counter exact; with faults too, only entries that were free have changed |
| `FatTable.Fat.Undo` | power-ctl/src/fat/fatent.c:541-551 | giving back a failed allocation restores the table and the copies; with faults, only entries of the allocation are still changed |
| `FatTable.ScanBound` | power-ctl/src/fat/fatent.c:488-537 | a scan meets only free entries of the table, a full one all of them |
| `FatTable.FirstFitIsNearest` | power-ctl/src/fat/fatent.c:488-522 | the first free entries of the scan are, in order, those nearest behind prev_free; every other free entry is farther |
| `FatTable.Fat.CountFreeClusters` | power-ctl/src/fat/fatent.c:716-753 | on success the counter is exact, unless it was already trusted |
| `ClusterCache.RealIffOn` | power-ctl/src/fat/cache.c:80-115 | the runs a walk can find are exactly the contiguous pieces of the chain |
| `ClusterCache.SameStart` | power-ctl/src/fat/cache.c:117-132 | runs that start at the same position start at the same cluster, so the BUG_ON is not reached |
| `ClusterCache.WalkStopsAtLimit` | power-ctl/src/fat/cache.c:247-266 | a walk ends within the limit on cyclic chains too |
| `ClusterCache.RunsKept` | power-ctl/src/fat/cache.c:186-209 | cached runs stay right when the chain changes behind them only |
| `ClusterCache.StaleRunRefused` | power-ctl/src/fat/cache.c:134-209 | a run from before k invalidations is accepted if and only if k is a multiple of 2^32 - 1; one begun by a walk always is |
| `FatInode.Inode.CacheSearch` | power-ctl/src/fat/cache.c:80-115 | a run that holds the position, or the last one to begin before it; a miss only if none begins before it |
| `FatInode.Inode.CacheLookup` | power-ctl/src/fat/cache.c:80-115 | a hit is a position on a real run of the current generation, and exactly that run moves to the front; a miss changes nothing |
| `FatInode.Inode.CacheMerge` | power-ctl/src/fat/cache.c:117-132 | finds the first run with the same start and keeps the longer one |
| `FatInode.Inode.CacheAdd` | power-ctl/src/fat/cache.c:134-184 | the whole new cache: the merged or new run at the front, the others in their order, the last of eight evicted; a stale run is not added; all runs stay real |
| `FatInode.Inode.CacheInval` | power-ctl/src/fat/cache.c:186-209 | empties the cache and moves to the next generation |
| `FatInode.Inode.GetCluster` | power-ctl/src/fat/cache.c:225-289 | returns what an uncached walk from the first cluster returns, keeps the cache right, and leaves the run that holds the position most recent |
| `FatInode.Inode.ChainAdd` | power-ctl/src/fat/misc.c:107-169 | appends exactly the new clusters, or changes nothing; succeeds without faults exactly when the chain is within the limit |
| `FatInode.Inode.Append` | power-ctl/src/fat/dir.c:1218-1277 | allocates clusters, fills them and adds them to the chain, or gives them back; which of these, exactly by the free count, the fill and the length of the chain |
| `FatInode.Inode.AddCluster` | power-ctl/src/fat/inode.c:104-117 | grows the chain by one formerly free cluster, or gives it back; success exactly when one is free and the chain is within the limit |
| `FatInode.Inode.Free` | power-ctl/src/fat/file.c:403-470 | keeps exactly the leading clusters and frees exactly the rest |
| `FatInode.Inode.TruncateBlocks` | power-ctl/src/fat/file.c:472-489 | keeps exactly the clusters that hold a byte before the offset, and the sizes stay covered |
| `FatInode.Inode.BmapCluster` | power-ctl/src/fat/cache.c:291-308 | the cluster at a position of the chain |
| `FatInode.Inode.Bmap` | power-ctl/src/fat/cache.c:310-386 | maps exactly the blocks of the file, to dataStart + (cluster - 2) * secPerClus + offset, and the number of blocks that follow is the largest within cluster and file; for bmap the file is its chain |
| `FatInode.Inode.Provide` | power-ctl/src/fat/inode.c:139-160 | allocates exactly when the next block is not on the chain |
| `FatInode.Inode.HandOut` | power-ctl/src/fat/inode.c:139-181 | new blocks are handed out from the end: chain, sizes and the mapping, with neither the "invalid FAT chain" error nor the BUG_ON reached |
| `FatInode.Inode.GetBlock` | power-ctl/src/fat/inode.c:119-181 | which block is mapped, to which disk block and for how many, when the file grows, by how much and by which cluster, for every block and request |
| `FatVolume.StepKeepsSound` | power-ctl/src/fat/misc.c:107-169 | growing, cutting or looking up one inode keeps all chains well formed and disjoint, all caches right and the counter exact |
| `FatVolume.Conservation` | power-ctl/src/fat/fatent.c:716-753 | free clusters, chain lengths and unowned entries add up to the volume |
| `FatVolume.StepKeepsUnowned` | power-ctl/src/fat/file.c:403-489 | no operation loses an entry or takes one that no inode owns |
| `FatVolume.RunsStaySound` | power-ctl/src/fat/inode.c:104-117 | in every state of every run all of this holds, with one fixed set of unowned entries |
| `FatVolume.Volume.AddCluster` | power-ctl/src/fat/inode.c:104-117 | the append is a step of the volume |
| `FatVolume.Volume.Truncate` | power-ctl/src/fat/file.c:403-470 | the truncation is a step of the volume |
| `FatVolume.Volume.Lookup` | power-ctl/src/fat/cache.c:225-289 | a lookup is a step and returns the uncached answer for any inode of the volume |
| `FatVolume.BlocksNeverShared` | power-ctl/src/fat/fat.h:251-255 | different blocks of a file, and blocks of files with separate chains, have different disk blocks |
| `FatVolume.InodesNeverShare` | power-ctl/src/fat/cache.c:310-331 | so have the blocks that inodes of one volume map |
| `FatVolume.NeighboursLieTogether` | power-ctl/src/fat/cache.c:310-331 | neighbours in a cluster are neighbours on the disk |
| `WriteGate.GatedKeepsInv` | power-ctl/src/fat/inode.c:228-245 | steps of gated operations keep the gate's invariant |
| `WriteGate.FreeKeepsInv` | power-ctl/src/fat/file.c:41-59 | so do stores to mapped pages, writeback and the device cache |
| `WriteGate.DisableKeepsInv` | power-ctl/src/fat/inode.c:247-264 | so do the steps of fat_disable_write |
| `WriteGate.FrozenIsComplete` | power-ctl/src/fat/inode.c:247-264 | once it has returned 0, no operation is inside and the media hold every change ever let through |
| `WriteGate.FrozenUntilReopened` | power-ctl/src/fat/inode.c:252-263 | from then on memory and media stay the same until a later call fails its sync |
| `WriteGate.CallCanSucceed` | power-ctl/src/fat/inode.c:247-264 | from every volume with no call in progress a call can run to success, which freezes the volume as it is |
| `WriteGate.SecondCallFails` | power-ctl/src/fat/inode.c:247-264 | from every frozen volume with an idle thread, a second call whose sync fails runs to its end and leaves the gate open |
| `WriteGate.ChangeGoesThrough` | power-ctl/src/fat/inode.c:228-245 | through an open gate an idle thread can make any change |
| `WriteGate.SecondCallReopens` | power-ctl/src/fat/inode.c:260-261 | so every frozen volume can be changed anywhere after such a call |
| `LongName.SlotReadsBack` | power-ctl/src/fat/namei_vfat.c:625-635 | a slot record gives back its number, checksum and 13 units |
| `LongName.SlotRecordIs` | power-ctl/src/fat/namei_vfat.c:625-635 | the record byte by byte: number, attributes, checksum, and the units in their three places, low byte first |
| `LongName.RotateBack` | power-ctl/src/fat/fat.h:240-249 | each step of the checksum is a rotation to the right and an addition |
| `LongName.ChecksumOfReadme` | power-ctl/src/fat/fat.h:240-249 | the checksum of "README  TXT" is 0x73 |
| `LongName.Pad` | power-ctl/src/fat/namei_vfat.c:561-576 | pads with a zero and 0xffff to whole slots |
| `LongName.BuildSlots` | power-ctl/src/fat/namei_vfat.c:621-637 | the records of the name byte by byte, last piece first, the first marked with 0x40, with the alias checksum |
| `LongName.ParseSlots` | power-ctl/src/fat/dir.c:304-327 | completes exactly on a proper sequence of slots |
| `LongName.ParseLong` | power-ctl/src/fat/dir.c:279-338 | ends on any sequence of records; a result is a proper sequence of slots before an 8.3 record and spells its units; such a sequence at the start is found; the other returns tell the end, a record that is no slot, and an unusable record |
| `LongName.FilledIsHeard` | power-ctl/src/fat/dir.c:305-315 | the buffer holds the units of the slots, cut where a slot carries the last mark |
| `LongName.WrittenIsProper` | power-ctl/src/fat/namei_vfat.c:621-637 | built records are a proper sequence |
| `LongName.WrittenIsHeard` | power-ctl/src/fat/namei_vfat.c:621-637 | built records spell the padded name and a zero |
| `LongName.ParseWritten` | power-ctl/src/fat/dir.c:279-338 | a name of 1 to 255 units that stands anywhere in a directory is parsed back, with all slots and the right position |
| `LongName.BuildThenParse` | power-ctl/src/fat/namei_vfat.c:621-637 | what is built into slots is such a name |
| `ShortName.Scan` | power-ctl/src/fat/dir.c:951-968 | finds a name exactly when a short record carries it |
| `ShortName.FindExtension` | power-ctl/src/fat/namei_vfat.c:344-378 | the extension begins behind the last dot, unless nothing follows it or only dots and blanks come before it |
| `ShortName.SplitOnce` | power-ctl/src/fat/namei_vfat.c:344-378 | every name has one base and one extension |
| `ShortName.BuildBase` | power-ctl/src/fat/namei_vfat.c:380-403 | the first eight bytes of the base, tails that never cut a character, whether all of it fits, and then the case of all of it |
| `ShortName.BuildExt` | power-ctl/src/fat/namei_vfat.c:408-430 | whole characters of the extension within three bytes, and whether all of them fit |
| `ShortName.StandsIff` | power-ctl/src/fat/namei_vfat.c:277-319 | the flags collected say that a part stands for itself exactly when every character has its own form and all fit |
| `ShortName.CasesIff` | power-ctl/src/fat/namei_vfat.c:277-319 | the flags collected say upper or lower case exactly when every character is below 0x7F and every letter is, or is not, its own upper case |
| `ShortName.NumberedIs` | power-ctl/src/fat/namei_vfat.c:480-489 | a numbered name byte by byte |
| `ShortName.HashedIs` | power-ctl/src/fat/namei_vfat.c:491-505 | a hashed name byte by byte |
| `ShortName.ProbeCovers` | power-ctl/src/fat/namei_vfat.c:499-505 | stepping by 11 meets every 16-bit value within 65536 probes |
| `ShortName.ProbeNumbered` | power-ctl/src/fat/namei_vfat.c:480-489 | the least digit whose name is free; fails exactly when all nine are taken |
| `ShortName.ProbeHashed` | power-ctl/src/fat/namei_vfat.c:491-505 | the first free name going down by 11 from the time; none exactly when all 65536 are taken |
| `ShortName.FewNamesEnd` | power-ctl/src/fat/namei_vfat.c:499-505 | with fewer than 65536 short names one of them is free |
| `ShortName.CreateAlias` | power-ctl/src/fat/namei_vfat.c:434-507 | a returned alias makes no record free and is not in the directory, and is the one the search must give; the name is refused, is taken, or is searched for without end, each under its exact condition; when one record does and which case is noted |
| `ShortName.CreateShortName` | power-ctl/src/fat/namei_vfat.c:327-507 | for every name: refused exactly when no character of the base is usable; taken exactly when it is its own 8.3 form and the directory has it; its own form is never renamed, and is stored alone exactly when it is of upper case (win95) or its parts are of one case each (winnt), with lower case noted exactly where there is any; any other gets the alias of its first eight and three bytes, new to the directory, and found unless 65536 short names exist |
| `ShortRead.ParseField` | power-ctl/src/fat/dir.c:375-441 | the characters up to the last one that is not a blank, for any character set |
| `ShortRead.FieldShown` | power-ctl/src/fat/dir.c:375-441 | a field of ASCII is shown character by character, without the blanks behind it |
| `ShortRead.ParseShort` | power-ctl/src/fat/dir.c:349-455 | base, dot and extension of an 8.3 record, in the case of the mount and the record |
| `ShortRead.PartShown` | power-ctl/src/fat/dir.c:193-232 | a part of one case comes back in lower case exactly if it is in lower case, in upper case exactly if it is in upper case |
| `ShortRead.ShownIff` | power-ctl/src/fat/dir.c:349-455 | a name of one record is shown as it is if and only if both parts are |
| `ShortRead.ReadBack` | power-ctl/src/fat/dir.c:349-455 | a name stored in one record is read back as it was created; under a lower case mount exactly when it has no letter |
| `DirSlots.CoversNext` | power-ctl/src/fat/dir.c:1303-1318 | a run of at most 21 records never needs a fourth block |
| `DirSlots.Directory.FindFree` | power-ctl/src/fat/dir.c:1293-1318 | the first run of free records that is long enough, or those at the end, with the blocks they lie in, below the limit of 65536 records |
| `DirSlots.Directory.FillFree` | power-ctl/src/fat/dir.c:1333-1366 | the free records become the slots, block by block; success exactly by the syncs, and the short name is not written when the sync of the slots fails |
| `DirSlots.Directory.FillNew` | power-ctl/src/fat/dir.c:1198-1279 | new clusters hold the remaining slots and are zero behind them |
| `DirSlots.Directory.ZeroRest` | power-ctl/src/fat/dir.c:1081-1131 | the rest of the cluster is zeroed, the buffer array never overrun |
| `DirSlots.OneOrTwoClusters` | power-ctl/src/fat/dir.c:1214-1216 | at most two clusters, so the BUG_ON is not reached |
| `DirSlots.Directory.Extend` | power-ctl/src/fat/dir.c:1368-1394 | the directory grows by one or two clusters, exactly when they were had, or its free records are released again |
| `DirSlots.Directory.Undo` | power-ctl/src/fat/dir.c:1408-1413 | no record in use changes, and the filled ones are free again |
| `DirSlots.Directory.Place` | power-ctl/src/fat/dir.c:1281-1366 | first fit: the slots fill the first free records that suffice, or the free end of the directory |
| `DirSlots.Directory.AddEntries` | power-ctl/src/fat/dir.c:1281-1413 | success puts the slots at consecutive positions, first fit, in free or new records and changes nothing else; a failure keeps every record in use |
| `DirSlots.Directory.RemoveRange` | power-ctl/src/fat/dir.c:994-1027 | marks exactly the given records, across blocks; a failing sync ends it after one block |
| `DirSlots.Directory.RemoveEntries` | power-ctl/src/fat/dir.c:1029-1078 | marks exactly the records of the slot info deleted, the block of the short name first and alone if its sync fails |
| `DirSlots.Directory.AddThenRemove` | power-ctl/src/fat/dir.c:1029-1078 | removing what was just added marks exactly the added records; the rest is as it was |
| `DirGrowth.DirFile.Grow` | power-ctl/src/fat/dir.c:1376-1394 | the chain grows by the clusters and the size by their bytes, or both stay; the "odd directory size" error is not reached |
| `DirGrowth.DirFile.AddEntries` | power-ctl/src/fat/dir.c:1281-1413 | with the real allocator: records, chain and size stay in step; without faults it fails for space if and only if the directory has no room and fewer clusters are free than it needs, and then table and chain are as before |
| `VfatEntry.CheckName` | power-ctl/src/fat/namei_vfat.c:222-235 | refuses exactly the names with a bad character or a blank at the end |
| `VfatEntry.BuildEntry` | power-ctl/src/fat/namei_vfat.c:579-654 | the records of an entry spell the name, end in the 8.3 record of the alias with attributes, case and the given rest, and are at most 21 |
| `VfatEntry.EntryIsOneMore` | power-ctl/src/fat/dir.c:951-968 | an entry added to a directory adds exactly its alias to the short names |
| `VfatEntry.AddEntry` | power-ctl/src/fat/namei_vfat.c:656-693 | a name entered has an alias the directory did not have, which is the only new short name, and its records spell it; it has one record exactly when its own form and case allow it; it is refused as existing exactly when it is its own 8.3 form and that is there; without faults it fails for space exactly when the directory has no room and too few clusters are free; else no record in use has changed |
| `VfatEntry.AddThenRead` | power-ctl/src/fat/dir.c:279-455 | every name that was entered is read back: a long name from its slots, any other from its 8.3 record |

## Left out

- systemd, D-Bus, sysctl, sysfs and logging: calls with a yes or no answer.
- SHA-256 and the AArch64 CRC instructions: an arbitrary hash, and the portable loop.
- Concurrency inside the FAT driver other than the write gate: its mutexes are taken as held.
- Weak memory orders in the hash ring: the atomic accesses are one total order.
- Inode eviction after the gate closed: it is not gated and not modelled.
- Nested entry to the gate from splice: only safety is proved, not freedom from deadlock.
- Synchronous mounts: table blocks are not written out at once.
- Readahead, discard, FITRIM, fallocate, time stamps, NFS export and the msdos variant.
- The NLS tables themselves.  Names come as UTF-16, and what is read stays UTF-16.
- The search for a name by comparing it with every entry (fat_search_long).
- The fixed root directory of FAT12 and FAT16: it has no chain; only its limit on new records is modelled.
- The application's own write cache: it appears as the condition of the A/B safety theorem.
- Failing thread creation and an empty payload in hash_sha256_fd; files of 2^32 chunks of 8 MiB and more.
- AbStorage.Storage.AppWrite: file system writes stay below the footer and are single steps; they are only allowed while the peer verifies.
- AbProtocol.AcceptedWasSealed: needs the descriptor to reach the device as one write, which `AbStorage` assumes of a 128-byte transfer; a torn one could pass the CRC by accident.
- AbProtocol.StampIsSafe: takes the hash of the whole payload; `SealIsGoodIff` and `PrepareIsGoodIff` say what any other hash does.
- FatTable.Fat.FreeClusters: a block that cannot be read stays unreadable during a call.
- FatTable.Fat.AllocClusters: with unreadable or unavailable blocks the backup copies may lag behind and taken clusters may stay taken.
- FatInode.Inode.TruncateBlocks: the source ignores the result of freeing; the model returns it.
- FatInode.Inode.GetCluster: calls on one inode do not overlap; what an overlapping invalidation can do is `StaleRunRefused`.
- LongName.ParseLong: the records are those of the readable blocks; a block that turns unreadable during the call is not modelled.
- DirSlots.Directory.AddEntries: blocks of the directory stay readable; the outcome of the allocation is a parameter, which `DirGrowth.DirFile.AddEntries` takes from the allocator.
- DirGrowth.DirFile.AddEntries: new clusters are linked before their records are filled in; no one can see them in between.
