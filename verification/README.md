# JaguarDB storage and recovery, modelled and proved

This project models the storage and recovery core of JaguarDB and proves what it keeps. `dafny verify dfyconfig.toml`
checks all of it. Eight parts, each a module or a few:

- **The gapped sorted array** (`Gapped`, `BlockLevels`, `BlockClimb`, `BlockRepair`, `BlockSearch`, `BlockIndex`,
  `ProbeTable`, `Placement`, `ArrayFacts`, `SortedArray`). A sorted array with free slots, an open-addressed hash table
  that gives a key's slot, and an index of many levels whose entries are the first keys of 32 entries below. Every
  insertion, removal, growth and shrinking is an in-place method over the three representations; the contracts speak of
  one thing, `Stored`, the set of pairs held. Both indexes are followed through every single copy of a shift: after each
  one the hash table has exactly one reachable entry for each key, and the block index describes the keys there are.
- **Replicas** (`DeltaLogs`, `Replica`). Servers in a ring of any size hold copies of each other's data. A server that did
  a write logs it for every copy that missed it; logs are shipped and put back; a server that lost everything is refilled.
- **The write-ahead log** (`Decimal`, `WalLog`): printed, replayed, trimmed, character by character.
- **The region lock** (`BlockLock`): readers and writers of regions, with the whole array as region -1.
- **The composite file** (`CompFile`, `Merge`, `FileLookup`): one file made of many, found by offset or by key, the merge
  of a sorted buffer into them, and what is found after it.
- **Superblock buffers** (`Superblocks`): writing through a buffer, and reading back forward, backward and from a mark.
- **The aggregate** (`Aggregate`, `Join`): records of several hosts, spilled to files and read back, or joined by key.
- **The order of keys** (`KeyOrder`).

Keys are integers. In the array and its indexes the order stands for `compareKeys` (src/JagDBPair.cc:24-45), which
`KeyOrder` shows to be total up to keys that count as equal: an integer stands for a class of equal keys, and the null key
for the blank ones. The files and the joins compare bytes with `memcmp` instead (src/JagSimpFile.cc:254,
src/JagDataAggregate.cc:811), which is total on keys of one length (`KeyOrder.MemcmpTurned`, `KeyOrder.MemcmpTransitive`);
there an integer stands for one string of bytes. The two orders differ on starred keys alone: these are all equal in the
one, and as different as their bytes in the other. For the same reason the hash table, whose codes are taken from the
bytes, is modelled for keys of which equal ones have equal bytes.

## What the proofs found

Six promises hold only under a condition. Each is proved as an if-and-only-if, or with the exact extra result, and each
has an input on which it fails.

- *A block index can lose a level's first entry.* It happens when a write needs a new top level while the first slot of the
  old top level is empty but its block is not (`BlockIndex.JagBlock.UpdateIndex`). That alone does no harm: a search goes
  wrong if and only if, at a level it looks at, neither the first slot nor the one next to it has an entry though a key
  lies under the first, and the key looked for is below the first entry that the level still has
  (`BlockIndex.JagBlock.FindFirstLast`, `SortedArray.JagArray.FindPred`). While the entry next to each lost one is in use
  the index is *sound* and every search is right (`BlockSearch.SoundFindsAll`); where it is not, the lost key itself is
  missed (`BlockSearch.LostHeadStrays`). Insertions into an array keep the index sound, through every growth, and lose no
  head at all exactly under the condition given by `Placement.Noted`; an array of up to 1024 slots, or one whose first slot
  is used, never loses one. A removal makes a sound index unsound exactly if it takes the last key under the entry next to
  a lost one (`ArrayFacts.Widowed`, `SortedArray.JagArray.Remove`). So every run of insertions and removals is right up to
  the first such removal (`SortedArray.RunAll`). `BlockIndex.LosesAKey` is a run of the index by itself, with a write far
  from all keys, that ends with a stored key missed.
- *A removal can leave a stale key in the index.* It happens exactly for the last slot of all when its key is alone in its
  block and no shrinking follows (`SortedArray.JagArray.Remove`, witness `SortedArray.RemovalAtTheEnd`). Stored keys are
  still found then, but the place of a key that is not stored is found if and only if the key is below the stale one, or
  nothing is stored (`SortedArray.JagArray.FindPred`).
- *The broadcast of a recovery with two copies* names every sender exactly if there are two servers
  (`Replica.BroadcastWithTwoCopies`).
- *New offsets drop a file* exactly if a file other than the last is empty (`CompFile.AllFilesStay`, witness
  `CompFile.DroppedFile`). No merge leaves an empty file; one comes about when the process ends after a new file was created
  (src/JagSimpFile.cc:66-70) and before its records were written, and the next start enters it with the others
  (src/JagCompFile.cc:82-101). The next file put behind it is dropped (`CompFile.BehindEmpty`).
- *A merge of a segment into a file* is their union exactly if the file has a last key and the segment does not have
  that key (`Merge.MergeSegment`): otherwise a record is written twice, or one is lost, and `Merge.Spoilt` says which
  (witness `Merge.MergeLosesARecord`). In the merge of a whole buffer every file fares by itself
  (`Merge.MergeBufferToFile`): it takes in its share if and only if that is empty, or the file has a last key and the
  share does not have that key. Otherwise an empty file gets an unset record in place of the first one, and in any other
  file the old last record, which should be gone, stands once more right behind the new one (`Merge.Became`; witness
  `Merge.BufferGoesWrong`, where one file of two goes wrong). So a buffered record is lost in an empty file only.
- *Reading spilled records back* gives one blank record too many exactly if something was spilled, the last host wrote
  nothing, and the number of records is a multiple of the read buffer's (`Aggregate.GatherAndReadBack`, witness
  `Aggregate.BlankComesBack`).

Where the source and its comments disagree the code is followed: the predecessor search answers the slot before the first
key, not -1, when that slot exists (src/JagArray.h:543-546).

## Model

| member | source | states |
|---|---|---|
| Gapped.BinSearchPred | src/JagArray.h:1008-1073 | on a sorted window with gaps it ends with the target's slot, the greatest used slot below it, or the slot before the first key; a window given back to front is answered by its first entry alone |
| Gapped.Halve | src/JagArray.h:1033-1071 | the halving loop finds the predecessor once both ends are used and the first key is not above the target |
| BlockLevels.GrowTo | src/JagGapVector.h:238-260 | a vector grows past any index and keeps what it holds |
| BlockIndex.JagBlock.IsPrimary | src/JagBlock.h:307-333 | tells whether a slot is the first used one of its block, and which one is |
| BlockIndex.JagBlock.UpdateIndex | src/JagBlock.h:237-305 | after one write the bottom level has the first key of every block, and every upper level too but for lost heads; none is lost if and only if no entry came before the written one, or none was lost before and no level was added over an emptied first slot; a level is added exactly if the write leads at every level; the least key becomes this one exactly if it is lower or the first, the greatest exactly if it is higher, and the answer tells whether one changed |
| BlockIndex.NoteAll | src/JagBlock.h:237-305 | over any run of updates the two keys handed out are the least and the greatest of all keys passed, and an update says yes exactly if its key is below or above all before it |
| BlockClimb.StoppedTight | src/JagBlock.h:247-288 | the climb writes every lost head anew if it comes to the first key of all, and mends none otherwise |
| BlockLevels.LevelsSuffice | src/JagBlock.h:39 | positions of 63 bits never need more than 13 levels, of the 15 there are |
| BlockIndex.JagBlock.DeleteUpdateNeeded | src/JagGapVector.h:104-112 | one bottom entry is replaced if and only if it is not below the deleted key |
| BlockIndex.JagBlock.DeleteIndex | src/JagBlock.h:195-235 | changes that entry and no other at the bottom; the levels above still sum up what is below; no head is lost, and lost ones are mended exactly if nothing came before the block |
| BlockIndex.JagBlock.FindFirstLast | src/JagBlock.h:365-428 | the block it answers holds the target's predecessor unless all keys are above the target, and no key after the block is at or below it, if and only if no level on the way hides the target; otherwise the block is empty, with keys on both sides |
| BlockSearch.SoundFindsAll | src/JagBlock.h:365-428 | no level hides anything while every lost head has an entry next to it |
| BlockSearch.LostHeadStrays | src/JagBlock.h:391-425 | a lost head with no entry next to it is itself missed |
| BlockIndex.LosesAKey | src/JagBlock.h:197-428 | a run of writes and one deletion after which a stored key is not in the block its search ends at |
| BlockSearch.Descends | src/JagBlock.h:391-425 | one level of the search goes on towards the target, or away from it for good exactly if the level hides it |
| BlockLevels.LevelSorted | src/JagBlock.h:365-428 | every level of an index over sorted keys is sorted |
| BlockLevels.EntryAbove | src/JagBlock.h:237-288 | a stored key has an entry not above it at every level, unless its slot there is the first |
| BlockLevels.UnderTop | src/JagBlock.h:237-305 | a used entry at any level lies under the one block of the top level |
| ProbeTable.InsertHash | src/JagArray.h:1075-1087 | a new key gets one entry with its slot, every other key stays reachable |
| ProbeTable.UpdateHash | src/JagArray.h:1096-1112 | a key that moves to a free slot keeps its one entry, which now holds the new slot |
| ProbeTable.ProbeLocation | src/JagArray.h:1116-1131 | ends at an empty cell with no empty one between it and the start |
| ProbeTable.FindProbedLocation | src/JagArray.h:1136-1157 | finds the cell of a stored key, and finds none exactly if the key is not stored |
| ProbeTable.AbsentAfterProbe | src/JagArray.h:1136-1157 | a probe that meets an empty cell proves that the key is stored nowhere |
| ProbeTable.FindCluster | src/JagArray.h:1164-1189 | the run of used cells around a cell, also across the end of the table |
| ProbeTable.AboveQIsOrder | src/JagArray.h:1207-1225 | the cyclic test is exactly the order of places along the cluster |
| ProbeTable.RehashCluster | src/JagArray.h:1227-1265 | deleting by shifting back leaves every other key its one reachable entry, across the end of the table too |
| ProbeTable.TableHasEmpty | src/JagArray.h:583-591 | a free slot of the array leaves an empty cell, so every probe ends |
| BlockLevels.HeadThere | src/JagBlock.h:264-288 | with slot 0 used, or nothing stored, no head can be lost |
| Placement.LocatedInWindow | src/JagArray.h:547-568 | searching only the block from the index gives the answer of the whole array |
| Placement.NearSlot | src/JagBlock.h:247-288 | a head lost by a write near to a stored key keeps the entry next to it |
| Placement.LeftStep | src/JagArray.h:717-729 | after one copy of a shift to the left the index needs exactly the update that is made |
| Placement.RightStep | src/JagArray.h:778-784 | after one copy of a shift to the right the index needs exactly the update that is made |
| SortedArray.JagArray.constructor | src/JagArray.h:158-196 | a new array is empty, and both its indexes describe it with no head missing |
| SortedArray.JagArray.FindPred | src/JagArray.h:546-568 | ends where the key is, or belongs, if and only if the index does not hide that and no stale key is at or below it; says yes exactly if the key is stored and not hidden |
| SortedArray.JagArray.FindPredIn | src/JagArray.h:957-1002 | the search within a window gives the whole array's answer exactly if the window covers the key's place |
| SortedArray.JagArray.Exist | src/JagArray.h:878-908 | the hash table says whether a key is stored and in which slot; so does the ordered search, unless the index hides the key |
| SortedArray.JagArray.ShiftLeft | src/JagArray.h:715-729 | moves the run one slot down; before and after each copy each key has one hash entry with its present slot and the block index describes the keys; heads are only ever mended |
| SortedArray.JagArray.ShiftRight | src/JagArray.h:776-785 | moves the run one slot up likewise; a head is missing afterwards exactly if it was before or if the first copy lost one |
| SortedArray.JagArray.FindGap | src/JagArray.h:688-712 | the nearest gap, the right one of two equally near, with used slots all the way to it; there always is one |
| SortedArray.JagArray.InsertHere | src/JagArray.h:626-679 | a pair in a free slot joins the stored pairs; the index stays sound, and has all its heads if and only if no key came before the slot, or none was missing and the write lost none |
| SortedArray.JagArray.InsertLeft | src/JagArray.h:714-773 | makes room below and inserts; no head is lost, and all are mended exactly if no key came before the block of the gap |
| SortedArray.JagArray.InsertRight | src/JagArray.h:774-806 | makes room above and inserts; a head is missing afterwards exactly if a key comes before the new one, and one was missing or the gap was a position that loses one |
| SortedArray.JagArray.InsertAbsent | src/JagArray.h:625-812 | which slots change is fixed by the state before; the new pair joins the stored ones, nothing else changes, keys stay in order; the index stays sound, and has all its heads exactly under a condition on those slots and the state before |
| SortedArray.JagArray.Insert | src/JagArray.h:582-813 | the stored set is the old one with this key's pair replaced or added; a duplicate changes nothing; order, hash table and a sound block index are kept in every case; all heads are there after a growth, and otherwise exactly under that condition |
| SortedArray.InsertAll | src/JagArray.h:582-813 | every run of insertions into a new array keeps order, hash table and a sound index, through all growth, and stores what the run says; from up to 1024 slots no head is ever lost |
| SortedArray.RunAll | src/JagArray.h:582-854 | every run of insertions and removals does, and stores what the run says, up to the first removal that leaves a stale key or makes the index unsound |
| ArrayFacts.InsertCases | src/JagArray.h:625-686 | an unsuccessful search ends where the new key belongs, whichever placement is taken |
| SortedArray.JagArray.Grow | src/JagArray.h:264-393 | twice the slots, the same pairs in order, both indexes right with no head missing, whatever the old block index was, and every pair finds room |
| SortedArray.JagArray.Shrink | src/JagArray.h:286-446 | half the slots, the same pairs in order, both indexes right with no head missing, whatever the old block index was |
| ArrayFacts.PacedOn | src/JagArray.h:338-371 | the copying never runs past the new array |
| ArrayFacts.BackedOn | src/JagArray.h:412-430 | three slots a pair fit into the halved array |
| ArrayFacts.Thresholds | src/JagArray.h:589-591 | an array grows once two fifths of it are used, and shrinks below three twentieths, from 64 slots on |
| ArrayFacts.GrowThenShrink | src/JagArray.h:589-591 | after a grow at least a tenth of the old length must be removed before a shrink |
| ArrayFacts.ShrinkThenGrow | src/JagArray.h:846-851 | after a shrink about a twentieth of the old length must be inserted before a grow |
| SortedArray.JagArray.Vacate | src/JagArray.h:824-844 | one key leaves all three representations; the block index describes the rest if and only if the slot is not the stale one; then it has all its heads exactly if it had them or the key was the first, and stays sound exactly if no lost head is left alone |
| ArrayFacts.IndexVacated | src/JagArray.h:830-841 | the stand-in given to the index is right for every slot but the last of all alone in its block |
| ArrayFacts.SoundReleased | src/JagArray.h:830-841 | a removal keeps a sound index sound exactly if its key is not the last one under the entry next to a lost head |
| SortedArray.JagArray.Remove | src/JagArray.h:820-854 | exactly this key goes; order and hash table are kept; after a shrink the block index is right with no head missing, and otherwise it is what `Vacate` leaves; a sound index is broken exactly if the removal is one that `Breaks` names before; with a stale key it still describes the old keys |
| SortedArray.RemovalAtTheEnd | src/JagArray.h:49-53 | one insertion and one removal that leave a stale key in the index |
| SortedArray.JagArray.GetPred | src/JagArray.h:450-471 | the greatest stored key strictly below |
| SortedArray.JagArray.GetPredOrEqual | src/JagArray.h:505-525 | the greatest stored key not above |
| SortedArray.JagArray.GetSucc | src/JagArray.h:491-578 | the least stored key strictly above |
| SortedArray.JagArray.Get | src/JagArray.h:911-938 | the pair stored for a key, exactly if there is one and, without a hash table, the index does not hide it |
| KeyOrder.BlankIsLeast | src/JagDBPair.cc:26-34 | a key without bytes, or beginning with the byte 0, is below every other |
| KeyOrder.StarredAreEqual | src/JagDBPair.cc:36-37 | two keys that begin with the byte 42 are equal |
| KeyOrder.OrderIs | src/JagDBPair.cc:24-45 | one key is below another exactly if it alone is blank, or neither is, not both are starred, and its byte is the lesser where they first differ |
| KeyOrder.OrderIsTotal | src/JagDBPair.cc:24-45 | any two keys of one length are in order one way or the other, both ways exactly for blank keys, starred keys and equal keys |
| KeyOrder.OrderIsTransitive | src/JagDBPair.cc:24-45 | the order is transitive across blank, starred and other keys |
| KeyOrder.MemcmpDecides | src/JagSimpFile.cc:254 | the first byte that differs decides, wherever it is |
| KeyOrder.MemcmpTurned | src/JagSimpFile.cc:254 | comparing bytes the other way round turns the answer, and it is even only for equal bytes |
| KeyOrder.MemcmpTransitive | src/JagSimpFile.cc:254 | and it is transitive |
| DeltaLogs.EveryLineOnce | src/JagDBServer.cc:9945-9996 | over every interleaving, delivered, travelling and waiting lines joined are all lines in order |
| DeltaLogs.ShipmentDelivers | src/JagDBServer.cc:9945-9996 | a shipment that succeeds has delivered all lines that were there when it began |
| DeltaLogs.SilentHostChangesNothing | src/JagDBServer.cc:9949-9953 | a shipment to a host that does not answer leaves every later state of the log as if it had not been tried |
| DeltaLogs.FailureRestores | src/JagDBServer.cc:9973-9990 | a failed shipment leaves the log as if it had not been tried |
| Replica.Around | src/JagDBServer.cc:5485-5504 | the case analysis at both ends of the host list gives the ring neighbours at distance one and two |
| Replica.Asked | src/JagDBServer.cc:1695-1738 | the two servers asked are the holders of the two other copies, and each answer goes to its copy's place |
| Replica.Refreshed | src/JagDBServer.cc:1740-1765 | the header then tells for each other copy whether its holder answers |
| Replica.SilentHoldersAreLogged | src/JagDBServer.cc:1695-1775 | with the client gone, the write is logged for exactly the copies whose holders do not answer |
| Replica.Server.ResetLogs | src/JagDBServer.cc:5472-5591 | every log is named by owner and copy and aimed at that copy's holder; contents stay |
| Replica.Server.LogCommand | src/JagDBServer.cc:5193-5352 | one line in each log of a copy that missed the command, none in any other, for three copies and for two |
| Replica.Server.BeginShipment | src/JagDBServer.cc:9949-9968 | moves the whole log to history exactly if the host answers and there is something |
| Replica.Server.FinishShipment | src/JagDBServer.cc:9970-9993 | keeps what was sent, or puts it back in front |
| Replica.NothingMissedIsLost | src/JagDBServer.cc:5418-5468 | over every run of a server each log has delivered, ships or holds exactly what its copy missed, in order |
| Replica.Perform | src/JagDBServer.cc:5193-5468 | a server put through any run of writes and shipments has in each log what that log's events make of an empty one |
| Replica.RingLosesNoWrite | src/JagDBServer.cc:5193-5468 | over every run of the whole ring, the log that one copy keeps for another has delivered, ships or holds exactly the writes that the one did and the other missed, in order |
| Replica.EveryMissIsLogged | src/JagDBServer.cc:5234-5352 | every copy that missed a write is logged by every copy that did it, and by no copy for itself |
| Replica.TransfersAreDue | src/JagDBServer.cc:6719-6819 | a server sends a directory into one of the asking server exactly if both stand for the same owner's data and it has something there, each once and nothing else, with two copies and with three |
| Replica.HoldersSend | src/JagDBServer.cc:6719-6819 | every other holder of a copy of what a directory has lost sends it there, whatever else it has |
| Replica.RecoversWithTwoCopies | src/JagDBServer.cc:6720-6751 | with two copies each directory is sent by the one other holder of its data, whenever that has it, and by nobody else |
| Replica.RecoversWithOneSilent | src/JagDBServer.cc:6751-6819 | each of the three directories has a sender when any one other server is silent, though the sender may have nothing else to send |
| Replica.BroadcastNamesSenders | src/JagDBServer.cc:3904-3948 | with three copies the broadcast names the asking server and every sender, each once |
| Replica.BroadcastWithTwoCopies | src/JagDBServer.cc:3937-3938 | with two copies it names the asking server and the holder of its second copy, which is all senders if and only if there are two servers |
| Decimal.AtoiSigned | src/JagDBServer.cc:5158-5160 | a printed number reads back as itself |
| Decimal.AtoiPadded | src/JagDBServer.cc:5158-5160 | so does a length printed with leading zeros |
| Decimal.PrintPlace | src/JagDBServer.cc:5158-5160 | each printed digit is that of its power of ten, and no number but 0 begins with a zero |
| WalLog.ReadEntry | src/JagDBServer.cc:6061-6141 | takes exactly the next entry off a log as it was printed, whatever its message holds |
| WalLog.Redo | src/JagDBServer.cc:6061-6172 | replays exactly the entries printed, and counts those of copy 0 |
| WalLog.OriginalsCount | src/JagDBServer.cc:6061-6172 | those are as many as the entries with copy 0 |
| WalLog.Trim | src/JagDBServer.cc:9745-9860 | the new log is the print of exactly the entries with a live key, in order |
| WalLog.KeptAreLive | src/JagDBServer.cc:9830-9847 | an entry stays, as often as it was there, exactly if it is live |
| WalLog.KeptJoins | src/JagDBServer.cc:9745-9860 | trimming keeps the order |
| WalLog.KeptTwice | src/JagDBServer.cc:9745-9860 | trimming again changes nothing |
| WalLog.PrintAllUnique | src/JagDBServer.cc:5158-5160 | a log can be taken apart in one way only |
| WalLog.EntryInPrint | src/JagDBServer.cc:5158-5160 | an entry as it stands in the file, character by character |
| WalLog.WalFile.LogCommand | src/JagDBServer.cc:5139-5163 | one more entry at the end of the log |
| WalLog.WalFile.Replay | src/JagDBServer.cc:6061-6172 | replaying a log written by any sequence of commands and trims gives back its entries |
| WalLog.WalFile.TrimFile | src/JagDBServer.cc:9745-9860 | keeps the live entries, and the file stays well-formed |
| BlockLock.RegionLock.RegionOverlaps | src/JagBlockLock.cc:42-92 | true exactly if some holder stands in the way, the early answer under a reader of the whole included |
| BlockLock.RegionLock.Lock | src/JagBlockLock.cc:94-145 | the region is given exactly if no holder stands in the way; table and totals count the holders |
| BlockLock.RegionLock.ReadUnlock | src/JagBlockLock.cc:147-166 | one reader less, or nothing if there is none |
| BlockLock.RegionLock.WriteUnlock | src/JagBlockLock.cc:110-129 | one writer less, or nothing if there is none |
| BlockLock.RunsAreExclusive | src/JagBlockLock.cc:94-166 | in every reachable state a writer shares its region with nobody |
| BlockLock.HoldersStay | src/JagBlockLock.cc:94-166 | over every run, the readers in a region are those admitted to it less those that left, and so are the writers |
| BlockLock.GrantedWhenLeft | src/JagBlockLock.cc:42-145 | after every run a request is granted exactly if every writer, and for a writer every reader, admitted to that region or to the whole, or to any region for the whole, has left |
| BlockLock.Perform | src/JagBlockLock.cc:94-166 | a lock put through any run of requests and leaves grants exactly these |
| BlockLock.WholeDecides | src/JagBlockLock.cc:67-74 | with someone in the whole array, only a writer of the whole can bar a reader |
| CompFile.CompFile.GetOffset | src/JagCompFile.cc:421-444 | the file a position lies in |
| CompFile.CompFile.Pread | src/JagCompFile.cc:137-189 | reads the slice of all files' bytes joined, across any number of borders, cut off at the end |
| CompFile.CompFile.RefreshAllOffsets | src/JagCompFile.cc:584-627 | offsets become the sums of the lengths before, the length their total, and the key map leads from least keys to offsets |
| CompFile.AllFilesStay | src/JagCompFile.cc:584-627 | every file stays if and only if none but the last is empty |
| CompFile.BehindEmpty | src/JagCompFile.cc:575-627 | a new file put behind an empty one is dropped |
| CompFile.CompFile.GetSimpFile | src/JagCompFile.cc:789-803 | the file whose key range a key falls into |
| Merge.PredOrEqual | src/JagDBMap.cc:126-144 | the last position of the buffer not above a key, or its end |
| Merge.ComputeMergeCost | src/JagCompFile.cc:463-556 | the segments follow one another through the buffer, each with keys of one file that takes them all, the files ascending; the last one is the one before it once more, or has all keys that no file takes; every key is in one unless there is none at all, which is so exactly if no file takes any key |
| Merge.MergeSegment | src/JagSimpFile.cc:195-325 | what is written to whatever file, sorted or not; for a sorted one the union of file and segment if and only if the file has a last key that the segment has not, and if not, exactly which record is written twice or lost |
| Merge.WeaveIs | src/JagSimpFile.cc:224-294 | the merge of sorted runs, with its reads ahead, against their union |
| Merge.MergeLosesARecord | src/JagSimpFile.cc:195-325 | a file and a segment of which one record is written twice and one lost |
| Merge.UnionIs | src/JagSimpFile.cc:246-272 | that union has the segment's records, and the file's under all other keys |
| Merge.UnionIncreasing | src/JagSimpFile.cc:246-272 | and it is sorted |
| Merge.MergeBufferToFile | src/JagCompFile.cc:558-582 | each file becomes what the records that belong to it make of it, and nothing else, though a segment may come twice; each has taken in its share if and only if it had a last key that is not in it, or nothing came, whatever becomes of the others |
| Merge.SecondMerge | src/JagCompFile.cc:538-552 | a segment that is entered twice does the second time nothing, to a file that went wrong too |
| Merge.TookInIff | src/JagCompFile.cc:558-582 | what becomes of a file is its old records and its share exactly under that condition |
| Merge.BufferGoesWrong | src/JagCompFile.cc:463-582 | a buffer that goes wrong in one file, where an old record stays behind its successor, and right in the next |
| Merge.MergeKeepsOrder | src/JagCompFile.cc:558-582 | the files' key ranges stay disjoint and ascending |
| Merge.MergeKeepsRecords | src/JagCompFile.cc:558-582 | all files together hold the buffer's records, and the old ones under all other keys |
| Merge.NewFileKeepsOrder | src/JagCompFile.cc:575-578 | so it is when the buffer becomes a new file |
| FileLookup.MergeInto | src/JagCompFile.cc:558-627 | after a merge and new offsets the files hold the records of both, none is empty, and both maps are right |
| FileLookup.MergeThenFind | src/JagCompFile.cc:558-803 | the file that a key leads to then holds the key exactly if any file does |
| Superblocks.BuffWriter.Write | src/JagBuffWriter.cc:53-73 | a record goes to its position, blanks in between, whatever superblock is in the buffer |
| Superblocks.BuffWriter.Flush | src/JagBuffWriter.cc:75-84 | the file then has everything that was written and ends with the last record |
| Superblocks.BuffReader.GetNext | src/JagBuffReader.cc:128-215 | hands out the first of the records still to come, or nothing exactly if none is left |
| Superblocks.BuffReader.SetRestartPos | src/JagBuffReader.cc:217-224 | marks the record handed out last, and never moves a mark |
| Superblocks.BuffReader.MoveToRestartPos | src/JagBuffReader.cc:226-257 | what comes next begins at the mark; the answer is yes exactly if a superblock had to be read again |
| Superblocks.BuffBackReader.GetNext | src/JagBuffBackReader.cc:121-193 | the same going back |
| Superblocks.BuffBackReader.MoveToRestartPos | src/JagBuffBackReader.cc:204-231 | the same going back |
| Superblocks.WriteAndRead | src/JagBuffWriter.cc:53-84 | what is written at increasing positions comes back in order, and in reverse backward, for all buffer sizes |
| Superblocks.ReadAndRestart | src/JagBuffReader.cc:128-257 | after a restart the records come again from the one handed out last before the mark |
| Superblocks.ReadBackAndRestart | src/JagBuffBackReader.cc:121-231 | the same going back |
| Aggregate.Spill.Write | src/JagDataAggregate.cc:322-368 | disk and memory of a host joined are what it wrote; a full buffer is spilled first |
| Aggregate.Spill.Flush | src/JagDataAggregate.cc:374-410 | if anything was spilled, everything is |
| Aggregate.SpillReader.ReadNextBlock | src/JagDataAggregate.cc:620-661 | a block has the next records of the hosts in order, up to the buffer's size |
| Aggregate.SpillReader.ReadIt | src/JagDataAggregate.cc:416-487 | hands out the next record; past the end a blank one exactly once, and exactly if the block ended just so |
| Aggregate.GatherAndReadBack | src/JagDataAggregate.cc:322-661 | writing, flushing and reading gives the hosts' records one host after the other, and one blank too many exactly under a stated condition |
| Aggregate.PerHostJoins | src/JagDataAggregate.cc:322-368 | each host's records are in the order they were written |
| Aggregate.BlankComesBack | src/JagDataAggregate.cc:416-661 | two hosts, the last one silent, from which one blank too many is read |
| Join.JoinReader.JoinReadNext | src/JagDataAggregate.cc:786-843 | all records at the front that have the least key left, in order of hosts, or none exactly if nothing is left |
| Join.JoinAll | src/JagDataAggregate.cc:786-843 | the groups' keys strictly increase, every record of every host is in a group, and a group has all records of its key and no others |

## Left out

- SortedArray.JagArray.Insert: into an array that does not grow, only while the index describes the keys and does not hide the new key's place; elsewhere the source puts the pair out of order, or a second time.
- SortedArray.JagArray.Remove: from an array that holds a stale key already.
- BlockIndex.JagBlock.UpdateIndex: levels are added as they are needed, the source has them all from the start; counters and the lock are not modelled.
- BlockIndex.JagBlock: `cleanPartBlockIndex` is the loop of `deleteIndex` with no new key and is not called on this index.
- ProbeTable.ProbeLocation: the source ends the process after a million cells, the model does not.
- ProbeTable.InsertHash: keys that count as equal and differ in their bytes, as starred ones may, have one hash code in the model.
- SortedArray.JagArray.constructor: an array of one slot, which the source accepts and then cannot search, and turning the hash table on for an array that already holds pairs.
- SortedArray.JagArray.Grow: the direction in which keys arrive is an arbitrary boolean, because the statistics behind it decide only the spacing.
- SortedArray.JagArray.Get: `set` is this search and one assignment of a value; destroying values is not modelled.
- Merge.MergeSegment: the record in an unset pair is any record that is not in the buffer; the block index of the file, the sizes of its buffers and its renaming are not modelled. Blank slots, which every reader passes over, are not part of a file's records.
- Merge.ComputeMergeCost: the cost itself is not modelled; it is a sum of sizes over the writing speed, reads included (src/JagCompFile.cc:519).
- CompFile.CompFile: `pwrite`, `insert` and `remove` are not modelled; reads of a file are complete.
- Superblocks.BuffReader.SetRestartPos: asks that a record of the superblock in memory has been handed out; before that the source stores a position before the superblock.
- Superblocks.BuffWriter.Write: nothing is written after the flush, as the source's buffer is not cleared there; headers in front of the records are not modelled.
- Aggregate.Spill: records have one length, so lengths are counted in records; the modes that keep files or write SQL, and reading backward over several hosts, are not modelled.
- Join.JoinReader: the join from disk goes through a reader that is not part of this model.
- Replica.Server: sockets, the file system and the sending itself are reduced to whether a host answers and whether a shipment arrives as a whole; one shipment of a log is under way at a time.
- WalLog.Redo: logs that end in the middle of an entry are not given a meaning; running the commands is reduced to the list of entries handed on.
- WalLog.Trim: parsing the SQL and looking up the key are one arbitrary predicate on entries.
- BlockLock.RegionLock.Lock: one round of asking; waiting, waking and fairness are not modelled.
- Sockets, authentication, threads and signals, schema commands, backups, and the geometry code are not modelled.
