# Verified models of boot-loader commands and a fuzzing loop

This project models, in Dafny 4.11, the parts of U-Boot 2019.07-rc4 that hold real algorithms, together with
the coverage-guided fuzzer of the training scripts, and proves what they promise for all inputs and all runs.
`dafny verify dfyconfig.toml` checks everything.

| files | what they model |
|---|---|
| `KermitCodec`, `KermitBits`, `KermitMachine`, `KermitLedger`, `KermitParms`, `KermitDelivery`, `KermitPackets`, `KermitReceiver`, `KermitLoad` | the Kermit receiver of `cmd/load.c` |
| `StorageEnum` | the resumable device enumeration of `api/` |
| `EfiSort`, `EfiMap`, `EfiGroups`, `EfiTable`, `EfiRows` | the EFI memory map builder and printer, with `qsort` |
| `FlashPlan`, `FlashOps` | the NOR flash range planner, erase and protect |
| `Floppy` | block addressing, chunking and retries of the floppy reader |
| `SRecord`, `SRecordIO`, `SRecordLoad`, `SRecordKinds`, `SRecordRoundTrip`, `SRecordExact` | writing and loading Motorola S-Records |
| `CText`, `GptFields`, `GptText`, `GptRoundTrip`, `GptExact`, `GptAmounts`, `GptRename` | C string tools, the partition layout text of the `gpt` command, its rename and swap commands |
| `FdtText`, `FdtRoundTrip`, `FdtExact`, `FdtCells` | printing and parsing device-tree property values |
| `Eeprom`, `ArmFlashCrc`, `Fuzzer` | EEPROM chunking, the flash image checksum, the fuzzing loop |
| `Arithmetic`, `Octets` | facts about products and remainders, bytes and their sums |

How the layers fit together:

- **Kermit.** `KermitReceiver.Receiver` is `k_recv` with its static variables and buffers, method by method.
  It is proved to stay in step with a character machine (`KermitMachine`). The machine is proved to do, on
  every stream of complete attempts, what a book of packets does (`KermitLedger`), and the delivery theorems
  (`KermitDelivery`) are about the book; `LoadSerialBin` carries them back to the receiver. An error before the sequence number goes back to the checkpoint of
  the previous packet, so delivery assumes that damage falls after the sequence field, as the comment at
  `cmd/load.c` lines 851 to 857 says; `AcknowledgedKeptIff` says exactly when that matters. Prefix safety
  needs no assumption. The locals of `k_recv` and its static variables are grouped in records.
- **Fast forms against simple ones.** Methods with loops and in-place updates (enumeration flags, sorting and
  merging in an array, sector plans, buffers, `strsep` loops) are proved against functions on values, and the
  properties are proved of those functions.
- **Round trips** relate each printer to its parser through the text itself.
- **Partition layouts.** The writer has one caller, which allocates by the number of partitions and never has more
  than 64; what fits its buffer is always short enough for the reader (`FittingComesBackIff`). The limits of the
  reader, `LayoutComesBackIff` to `SixtyDoNot`, are facts about `set_gpt_info` on text from elsewhere, such as an
  argument of `gpt write`.

Where the code does not do what one would expect, the code is kept and the exact condition is proved:

- quoting with a quote character that `ktrans` changes (`QuoteRoundTripIff`), and data acknowledged before an
  error in the next header (`AcknowledgedKeptIff`);
- an inactive device ends its group (`ListedExactly`);
- flash ranges that do not end with a sector (`FillSectRanges`);
- overlapping and empty memory descriptors (`PrintedRowsTileIff`, `SharedStart`);
- S-Records at addresses of more than eight digits, which neither fit their buffer nor load back (`SaveFitsIff`,
  `SavedLoadsIff`), records whose length byte is too small (`OverrunIff`), and the size reported for an empty
  load (`StoredSize`);
- partition layouts whose text is longer than the buffer that the rename and swap commands allocate for it
  (`FitsIff`, `WidestOverruns`), and names with separators or of 32 characters (`FittingComesBackIff`, `SwapIff`,
  `RenameIff`);
- lists of cells or bytes that are never closed, where the property parser reads past its last argument (`PastEndIff`);
- EEPROM pages of more than 256 bytes (`ChunkFitsIff`), and the two zeros of the flash checksum (`ChecksIff`).

The comment of `extract_env` writes `&{name}` where the code expects `${name}`; the code is followed.

Configuration: 64-bit `unsigned long` and block numbers; no random uuids, no partition type guids; no FRAM
device; no flash behind the download commands. The character input, the environment, the results of block
transfers, seeks and erases, and every random choice are parameters.

## Model

| member | source | states |
|---|---|---|
| `KermitCodec.CheckIgnoresSignedness` | u-boot-2019.07-rc4/cmd/load.c:555-563 | for every byte string and either signedness of `char`, the block check of the sender side equals the one the receiver computes from masked bytes, because both depend only on the byte sum modulo 256 |
| `KermitCodec.UnquoteAppend` | u-boot-2019.07-rc4/cmd/load.c:662-677 | decoding composes across every split of the text, even between a quote character and the character it escapes, so packet boundaries do not matter |
| `KermitCodec.UnquoteInvertsQuote` | u-boot-2019.07-rc4/cmd/load.c:544-553 | for every byte string and every quote character that `ktrans` leaves alone, the control-quoted form decodes to the original bytes and leaves no escape pending |
| `KermitCodec.QuoteRoundTripIff` | u-boot-2019.07-rc4/cmd/load.c:544-553 | quoting round-trips on all byte strings if and only if `ktrans` leaves the quote character alone |
| `KermitCodec.NeverDelivered` | u-boot-2019.07-rc4/cmd/load.c:662-677 | with any other quote character no text whatever decodes to bytes that contain the quote character |
| `KermitBits.Check6Bits` | u-boot-2019.07-rc4/cmd/load.c:555-563 | the block check of every sum is the shift and mask of the code on its low byte |
| `KermitBits.KTransBits` | u-boot-2019.07-rc4/cmd/load.c:544-553 | `ktrans` on all bytes is the masks of the code |
| `KermitBits.IsControlBits` | u-boot-2019.07-rc4/cmd/load.c:839-840 | a refused character is one whose three high bits are clear |
| `KermitMachine.RunPrefix` | u-boot-2019.07-rc4/cmd/load.c:772-946 | a run depends only on the characters read so far |
| `KermitMachine.RunResume` | u-boot-2019.07-rc4/cmd/load.c:772-946 | a run can be cut anywhere and resumed from the state reached |
| `KermitMachine.StepPreserves` | u-boot-2019.07-rc4/cmd/load.c:607-660 | one character never moves the checkpoint back, leaves the write address at or above it and rewrites nothing below it |
| `KermitMachine.PrefixSafety` | u-boot-2019.07-rc4/cmd/load.c:806-946 | prefix safety: the same between any two moments of any run on any byte stream, whatever damage it contains |
| `KermitMachine.NackStep` | u-boot-2019.07-rc4/cmd/load.c:926-933 | a character that causes a negative acknowledgement does nothing but fail the packet |
| `KermitMachine.ErrorRestoresCheckpoint` | u-boot-2019.07-rc4/cmd/load.c:926-933 | at every negative acknowledgement of every run, write address, escape flag and packet state are those of the checkpoint, which has not moved, memory is untouched, and exactly one reply went out |
| `KermitLedger.AccountAppend` | u-boot-2019.07-rc4/cmd/load.c:806-946 | entering attempts into the book composes |
| `KermitLedger.AttemptRun` | u-boot-2019.07-rc4/cmd/load.c:823-943 | one attempt of any kind (noise, cancel, damage before or after the sequence number, whole packet) takes the character machine from waiting to waiting with the effect the book records for it |
| `KermitLedger.StoppedStays` | u-boot-2019.07-rc4/cmd/load.c:806-945 | after a break or a cancel nothing changes any more |
| `KermitLedger.MachineKeepsBook` | u-boot-2019.07-rc4/cmd/load.c:772-946 | refinement: on every stream of complete attempts, memory, checkpoint, replies and phase of the character machine are those of the book, which knows only packets |
| `KermitLedger.StoppedIsEnd` | u-boot-2019.07-rc4/cmd/load.c:806-945 | the state at a break or a cancel is that at the end of the stream |
| `KermitParms.ProposalTaken` | u-boot-2019.07-rc4/cmd/load.c:690-734 | for every proposal of a sender, written by an encoder of its own, and however many of its parameters the packet carries: pad count, pad character, end of line and quote of the receiver are the ones encoded, and the defaults where there are none |
| `KermitParms.OfferTaken` | u-boot-2019.07-rc4/cmd/load.c:730-734 | the quote character in force is the sixth parameter of the packet, or the number sign if there are fewer |
| `KermitParms.AnswerIsOffer` | u-boot-2019.07-rc4/cmd/load.c:697-757 | the answer is the same encoding of the offer of the receiver, 94 characters, one second, no padding, carriage return and number sign, with its capabilities behind, as far as it was asked for |
| `KermitParms.ProposalAnswered` | u-boot-2019.07-rc4/cmd/load.c:565-571 | the acknowledgement of a proposal goes out behind the padding the sender asked for, as the packet of that offer, and with the end of line the sender asked for |
| `KermitDelivery.GroupArrives` | u-boot-2019.07-rc4/cmd/load.c:851-868 | however often one packet is damaged after its sequence number or repeated, it counts once, provided its last attempt is intact |
| `KermitDelivery.Delivery` | u-boot-2019.07-rc4/cmd/load.c:772-946 | over whole sessions with changing sequence numbers, every packet counts exactly once and in order, and the run is finished exactly if the last packet is the break |
| `KermitDelivery.FileIsPayload` | u-boot-2019.07-rc4/cmd/load.c:662-677 | what the packets add up to is the decoding of their data joined, so it does not depend on how the data was split |
| `KermitDelivery.PlanIsFile` | u-boot-2019.07-rc4/cmd/load.c:662-677 | the packets of a sender that quotes a file and cuts it anywhere add up to that file |
| `KermitDelivery.FileArrives` | u-boot-2019.07-rc4/cmd/load.c:772-946 | end to end on character streams: with noise, damage after sequence numbers and repetitions, the memory from the start address holds exactly the file, the size is the length of the file and nothing below the start changed |
| `KermitDelivery.GapEffect` | u-boot-2019.07-rc4/cmd/load.c:836-849 | errors before a sequence number throw the decoded text back to the checkpoint and change nothing else of the book |
| `KermitDelivery.AcknowledgedKeptIff` | u-boot-2019.07-rc4/cmd/load.c:836-868 | data of an acknowledged packet is kept past the next new sequence number if and only if no error fell before a sequence number in between, or the packet added nothing |
| `KermitPackets.PacketScans` | u-boot-2019.07-rc4/cmd/load.c:836-927 | a short packet built from any data of up to 220 printable bytes is read back as that packet, whatever follows on the line |
| `KermitPackets.LongPacketScans` | u-boot-2019.07-rc4/cmd/load.c:877-927 | the same for the long form with its own header check, up to 21278 data bytes |
| `KermitPackets.SessionScans` | u-boot-2019.07-rc4/cmd/load.c:806-943 | the characters of a session of packets fall into one whole attempt for each packet |
| `KermitPackets.CleanSessionLoadsFile` | u-boot-2019.07-rc4/cmd/load.c:772-946 | quote, split, packet, send, receive, check, unquote, store: for every file and every way of cutting it, the file is in memory at the end |
| `KermitPackets.RepliesWellFormed` | u-boot-2019.07-rc4/cmd/load.c:573-598 | on every stream every reply fits the reply buffer, carries the right length and is a packet that the receiver itself would accept |
| `KermitReceiver.Receiver.Chk1` | u-boot-2019.07-rc4/cmd/load.c:555-563 | the block check of the buffer up to the NUL is that of the sum of its bytes, for signed and unsigned `char` |
| `KermitReceiver.Receiver.S1SendPacket` | u-boot-2019.07-rc4/cmd/load.c:565-571 | pads and then the buffer up to the NUL go out |
| `KermitReceiver.Receiver.BuildPacket` | u-boot-2019.07-rc4/cmd/load.c:573-585 | the buffer, filled in place, holds exactly the packet with the right length and check for the data already in it |
| `KermitReceiver.Receiver.FinishPacket` | u-boot-2019.07-rc4/cmd/load.c:573-598 | one reply with that data is added and is on the wire as its packet |
| `KermitReceiver.Receiver.RememberParms` | u-boot-2019.07-rc4/cmd/load.c:690-734 | pad count, pad character, end of line and quote are those of the parameters received, as many as there are, which `ProposalTaken` shows to be those the sender encoded, and each is answered |
| `KermitReceiver.Receiver.Answer` | u-boot-2019.07-rc4/cmd/load.c:696-758 | the answer has one character for each parameter answered, all with the values this receiver offers |
| `KermitReceiver.Receiver.HandleSendPacket` | u-boot-2019.07-rc4/cmd/load.c:685-769 | parameters are remembered and answered in one acknowledgement, which `ProposalAnswered` spells out |
| `KermitReceiver.Receiver.KDataChar` | u-boot-2019.07-rc4/cmd/load.c:662-677 | one character goes through the decoder into memory |
| `KermitReceiver.Receiver.PacketError` | u-boot-2019.07-rc4/cmd/load.c:926-933 | state, address and escape go back to the checkpoint and one negative acknowledgement goes out |
| `KermitReceiver.Receiver.AwaitStart` | u-boot-2019.07-rc4/cmd/load.c:823-834 | waits for a start character, or the cancel character, in step with the machine |
| `KermitReceiver.Receiver.ReadLength` | u-boot-2019.07-rc4/cmd/load.c:836-842 | the length character, in step with the machine |
| `KermitReceiver.Receiver.CheckSequence` | u-boot-2019.07-rc4/cmd/load.c:851-868 | a repeated number goes back to the checkpoint, a new one makes a checkpoint |
| `KermitReceiver.Receiver.ReadSequence` | u-boot-2019.07-rc4/cmd/load.c:843-868 | the sequence number, in step with the machine |
| `KermitReceiver.Receiver.ReadKind` | u-boot-2019.07-rc4/cmd/load.c:870-876 | the packet type, in step with the machine |
| `KermitReceiver.Receiver.ReadExtendedLength` | u-boot-2019.07-rc4/cmd/load.c:877-891 | the long length, in step with the machine |
| `KermitReceiver.Receiver.ReadCheck` | u-boot-2019.07-rc4/cmd/load.c:892-924 | a check character of the header or of the packet, in step with the machine |
| `KermitReceiver.Receiver.ReadData` | u-boot-2019.07-rc4/cmd/load.c:901-918 | all data characters, in step with the machine |
| `KermitReceiver.Receiver.AcceptPacket` | u-boot-2019.07-rc4/cmd/load.c:934-943 | the acknowledgement that the packet type asks for |
| `KermitReceiver.Receiver.ReadEnd` | u-boot-2019.07-rc4/cmd/load.c:925-943 | the end character decides between error and acknowledgement |
| `KermitReceiver.Receiver.OnePacket` | u-boot-2019.07-rc4/cmd/load.c:806-944 | one turn of the packet loop keeps receiver and machine in step |
| `KermitReceiver.Receiver.KRecv` | u-boot-2019.07-rc4/cmd/load.c:772-946 | refinement: the imperative receiver returns with memory, replies on the wire and size exactly those of the character machine on the characters read, so all theorems above hold of it; it returns only when cancelled, finished or out of characters |
| `KermitLoad.LoadSerialBin` | u-boot-2019.07-rc4/cmd/load.c:509-515 | the receiver itself, run on any stream that carries a file with noise, damage after sequence numbers and repetitions, returns the length of the file with the file in memory and nothing below the start changed |
| `StorageEnum.Enumerator.DevStorGet` | u-boot-2019.07-rc4/api/api_storage.c:98-154 | the next present device of a group after the cookie, or from the first slot if the cookie belongs elsewhere; an inactive one is reported as not found but as more to come |
| `StorageEnum.Enumerator.DevStorType` | u-boot-2019.07-rc4/api/api_storage.c:159-169 | the group that holds the device, or none |
| `StorageEnum.Enumerator.DevEnumStor` | u-boot-2019.07-rc4/api/api_storage.c:180-268 | groups before that of the cookie yield nothing, its own group goes on after it, later groups start over, and only the flags of the one group change |
| `StorageEnum.Enumerator.DevEnumStorage` | u-boot-2019.07-rc4/api/api_storage.c:280-291 | finds exactly the head of what remains over all groups, and fails exactly if nothing remains |
| `StorageEnum.Enumerator.ApiDevEnum` | u-boot-2019.07-rc4/api/api.c:196-226 | each call returns the head of what remains, network device first; a NULL cookie starts over whatever the flags are |
| `StorageEnum.ListedExactly` | u-boot-2019.07-rc4/api/api_storage.c:98-154 | a device is listed if and only if it is present and neither it nor a device before it in its group is inactive |
| `StorageEnum.ListedDistinct` | u-boot-2019.07-rc4/api/api_storage.c:98-154 | within a group no device is listed twice |
| `StorageEnum.ListedFromDistinct` | u-boot-2019.07-rc4/api/api_storage.c:280-291 | nor over the groups |
| `StorageEnum.AllDistinct` | u-boot-2019.07-rc4/api/api.c:196-226 | nor over a whole run with the network device |
| `StorageEnum.Enumerator.Enumerate` | u-boot-2019.07-rc4/examples/api/glue.c:177-204 | a whole run of the client fed with its own cookies ends and returns exactly the specified sequence, as much of it as its array has room for, whatever flags an earlier run left, so a second run gives the same |
| `StorageEnum.Enumerator.Turn` | u-boot-2019.07-rc4/api/api_storage.c:285-293 | one group: nothing before the one of the cookie, the rest of that one, the whole of a later one, whose members and order `AllExactly` and `AllOrder` state |
| `StorageEnum.AllExactly` | u-boot-2019.07-rc4/api/api_storage.c:280-293 | a run returns the network device, if there is one, and exactly the devices of the occupied slots of all groups that no inactive device of their group precedes |
| `StorageEnum.AllOrder` | u-boot-2019.07-rc4/api/api_storage.c:280-293 | devices come in the order of groups, and within a group in the order of slots, behind the network device |
| `EfiSort.CmpFlips` | u-boot-2019.07-rc4/cmd/efi.c:58-69 | the comparison of wrapped differences is antisymmetric where it says greater, for all 64-bit addresses |
| `EfiSort.CmpIsOrder` | u-boot-2019.07-rc4/cmd/efi.c:58-69 | below 2^63 it is the order of the start addresses |
| `EfiSort.Sink` | u-boot-2019.07-rc4/lib/qsort.c:43-60 | one entry moves down by swaps: a permutation, and with gap 1 the ordered prefix grows by one |
| `EfiSort.Pass` | u-boot-2019.07-rc4/lib/qsort.c:41-62 | one pass is a permutation, and with gap 1 it orders all neighbours |
| `EfiSort.FirstGap` | u-boot-2019.07-rc4/lib/qsort.c:32-37 | the first gap is of the series that ends at 1, and below the count |
| `EfiSort.NextGap` | u-boot-2019.07-rc4/lib/qsort.c:63-64 | the series of gaps falls and ends at 1 exactly |
| `EfiSort.QSort` | u-boot-2019.07-rc4/lib/qsort.c:22-66 | the shell sort in place yields a permutation with all neighbours in order and touches nothing behind the range, for every input |
| `EfiMap.WeighPermutation` | u-boot-2019.07-rc4/cmd/efi.c:71-122 | any measure that adds over entries is unchanged by sorting |
| `EfiMap.JoinedIsBoth` | u-boot-2019.07-rc4/cmd/efi.c:101-110 | a joined entry covers exactly the addresses of both, none of them twice |
| `EfiMap.MergedEnd` | u-boot-2019.07-rc4/cmd/efi.c:90-119 | the last entry of the table always ends where the last entry read ends |
| `EfiMap.MeaningIsAdditive` | u-boot-2019.07-rc4/cmd/efi.c:90-119 | how often an address is described as a type, how often it is covered, and the number of pages are all measures that merging must respect |
| `EfiMap.ExtendWeighs` | u-boot-2019.07-rc4/cmd/efi.c:90-119 | one turn of the merge loop adds exactly the measure of the entry read |
| `EfiMap.MergeWeighs` | u-boot-2019.07-rc4/cmd/efi.c:90-119 | after any number of entries the table has the measure of those entries |
| `EfiMap.NormalForm` | u-boot-2019.07-rc4/cmd/efi.c:90-119 | from sorted entries the table is sorted, and with `skip_bs` it holds no boot services and no two touching conventional neighbours |
| `EfiMap.Place` | u-boot-2019.07-rc4/cmd/efi.c:90-119 | one turn of the merge loop in place is one turn on values, and leaves the entries not read yet alone |
| `EfiMap.MergeInPlace` | u-boot-2019.07-rc4/cmd/efi.c:90-119 | merging with a write cursor that never overtakes the read cursor gives exactly the table of the old contents, followed by the end mark |
| `EfiMap.MergedCompact` | u-boot-2019.07-rc4/cmd/efi.c:90-119 | with `skip_bs` no two neighbours are conventional and touching, for every map without overflow, sorted or not |
| `EfiGroups.JoinsIff` | u-boot-2019.07-rc4/cmd/efi.c:90-113 | for any map, one turn joins an entry to the one before exactly if both are usable and touch, and else appends it with all its fields |
| `EfiGroups.MergedGroups` | u-boot-2019.07-rc4/cmd/efi.c:72-121 | the table entry by entry: there is one for each entry of the sorted map that does not touch the one before, with its start, virtual start and attribute, and with the pages of those that follow up to the next |
| `EfiGroups.PlainTable` | u-boot-2019.07-rc4/cmd/efi.c:97-101 | without `skip_bs` the table is the sorted map itself |
| `EfiTable.MergedIsFaithful` | u-boot-2019.07-rc4/cmd/efi.c:71-122 | every address is described as often and as the same type as by the unsorted map (boot services read as conventional with `skip_bs`), and pages are conserved |
| `EfiTable.TableProperties` | u-boot-2019.07-rc4/cmd/efi.c:71-122 | both results together, for the sorted copy of any map without address overflow |
| `EfiTable.BuildMemTable` | u-boot-2019.07-rc4/cmd/efi.c:71-122 | the builder as a whole, copy, sort and merge in place: the table is made of the entries of the map, attributes and virtual addresses included, a permutation of it without `skip_bs`; it describes every address as the map does and ends with its mark |
| `EfiTable.PrintMemTable` | u-boot-2019.07-rc4/cmd/efi.c:124-168 | prints the rows of the table up to its end mark |
| `EfiTable.RowsStop` | u-boot-2019.07-rc4/cmd/efi.c:138-139 | nothing behind the end mark is printed |
| `EfiRows.RowsTileIff` | u-boot-2019.07-rc4/cmd/efi.c:138-168 | rows and gap rows of a table follow each other without hole or overlap if and only if no entry starts before the one before it ends |
| `EfiRows.MergedApart` | u-boot-2019.07-rc4/cmd/efi.c:90-119 | the table has its entries apart if and only if the sorted map has |
| `EfiRows.SortedTileIff` | u-boot-2019.07-rc4/cmd/efi.c:124-168 | for every map without overflow, the printed rows tile the addresses from 0 to the end of the table if and only if the entries in sorted order are apart |
| `EfiRows.ApartIsDisjoint` | u-boot-2019.07-rc4/cmd/efi.c:71-122 | entries that are apart in sorted order do not overlap in any order |
| `EfiRows.DisjointIsApart` | u-boot-2019.07-rc4/cmd/efi.c:71-122 | and conversely, where no empty entry starts where another one does |
| `EfiRows.PrintedRowsTileIff` | u-boot-2019.07-rc4/cmd/efi.c:124-168 | so the rows tile if and only if the entries of the map as given do not overlap, an empty entry inside another one counting as overlap |
| `EfiRows.SharedStart` | u-boot-2019.07-rc4/cmd/efi.c:58-69 | where an empty entry shares its start with another one, both orders are sorted and only one of them tiles |
| `EfiRows.EfiMem` | u-boot-2019.07-rc4/cmd/efi.c:193-231 | building and printing together, for every map without overflow: the rows are those of a table that is made of the map and describes every address as the map does, and they tile exactly for maps without overlap |
| `EfiRows.RowsShowTable` | u-boot-2019.07-rc4/cmd/efi.c:138-171 | every entry of the table has its row, under its number and in order, and no other |
| `EfiRows.RowShown` | u-boot-2019.07-rc4/cmd/efi.c:138-153 | the row before it is a gap exactly if the entry does not start where the one before ended, and the gap leads from there to its start modulo 2^64 |
| `FlashPlan.InUnique` | u-boot-2019.07-rc4/cmd/flash.c:187-268 | an address lies in at most one sector of the known banks |
| `FlashPlan.BlockSize` | u-boot-2019.07-rc4/cmd/flash.c:187-268 | a block is empty if and only if no sector is chosen |
| `FlashPlan.BlockExact` | u-boot-2019.07-rc4/cmd/flash.c:187-268 | an address lies in the block if and only if it lies in a chosen sector |
| `FlashPlan.BlockWhole` | u-boot-2019.07-rc4/cmd/flash.c:187-268 | a block consists of whole sectors of known banks without a hole |
| `FlashPlan.BlockChoice` | u-boot-2019.07-rc4/cmd/flash.c:187-268 | a sector of a known bank is chosen if and only if it starts in the block |
| `FlashPlan.ScanBank` | u-boot-2019.07-rc4/cmd/flash.c:214-234 | finds the sector that starts at the first address and the one that ends at the last, if there are such |
| `FlashPlan.PlanBank` | u-boot-2019.07-rc4/cmd/flash.c:214-264 | one bank fails exactly for a misfit, else it adds nothing or a run of sectors from the current address on |
| `FlashPlan.PlanBanks` | u-boot-2019.07-rc4/cmd/flash.c:203-265 | over all banks the runs form one block, all sectors are counted, and whole sectors of banks in order never fail |
| `FlashPlan.FillSectRanges` | u-boot-2019.07-rc4/cmd/flash.c:187-268 | success means one gap-free block of whole sectors from the first address, inside the range, counted exactly; it is the whole range if and only if the range ends with a sector of a known bank; with banks in order a range of whole sectors always succeeds |
| `FlashOps.RoundsOnce` | u-boot-2019.07-rc4/cmd/flash.c:91-127 | rounding up is a function, lands on the last byte of the sector, and is idempotent |
| `FlashOps.FindIn` | u-boot-2019.07-rc4/cmd/flash.c:102-118 | the sector of a bank that holds an address, or none |
| `FlashOps.SectRoundb` | u-boot-2019.07-rc4/cmd/flash.c:91-127 | rounds to the end of the sector that holds the address, and fails if and only if no bank has one |
| `FlashOps.PlanTouches` | u-boot-2019.07-rc4/cmd/flash.c:402-420 | the sectors of a plan are exactly those that make up the addresses of its block |
| `FlashOps.SectErase` | u-boot-2019.07-rc4/cmd/flash.c:393-429 | with a plan in hand, whole sectors from the first address are erased and nothing else, all of the range if and only if it ends with a sector, and code and sectors are those of the driver; without a plan it fails and erases nothing |
| `FlashOps.AddrSpec` | u-boot-2019.07-rc4/cmd/flash.c:166-184 | the end of `start +length` is rounded to the last byte of its sector; no other end could make up whole sectors |
| `FlashOps.EraseLength` | u-boot-2019.07-rc4/cmd/flash.c:377-386 | `start +length`: the plan is for exactly the addresses from the start to the end of the sector with the last byte, there is one if and only if those are whole sectors, for banks in order, and code and sectors are those of the driver |
| `FlashOps.Chips.ProtectBank` | u-boot-2019.07-rc4/cmd/flash.c:608-622 | sets the flags of a run of sectors of one bank and no other |
| `FlashOps.Chips.SectProtect` | u-boot-2019.07-rc4/cmd/flash.c:589-636 | success sets the flags of exactly the sectors that start in the block and leaves all others; failure changes nothing |
| `FlashOps.EraseBanks` | u-boot-2019.07-rc4/cmd/flash.c:405-419 | the loop stops at the first planned bank in which the driver fails, with its code, and has handed over the planned sectors of the banks up to that one |
| `FlashOps.SuccessMeans` | u-boot-2019.07-rc4/cmd/flash.c:405-419 | erasing reports success if and only if the driver succeeds in every bank with sectors in the block, and then exactly the sectors that make up the block were erased |
| `FlashOps.FailureMeans` | u-boot-2019.07-rc4/cmd/flash.c:405-419 | else it reports the code of the first such bank that fails, and no bank behind that one was touched |
| `FlashOps.SectorsTouch` | u-boot-2019.07-rc4/cmd/flash.c:405-419 | the sectors that start in a block of whole sectors make up its addresses |
| `Floppy.LocateFinds` | u-boot-2019.07-rc4/cmd/fdc.c:248-256 | the track, head and sector computed for a block are those from which the drive finds that block again, on an existing head and sector |
| `Floppy.Transfer` | u-boot-2019.07-rc4/cmd/fdc.c:452-493 | a transfer without error puts exactly its bytes into the buffer and none before them |
| `Floppy.ReadChunk` | u-boot-2019.07-rc4/cmd/fdc.c:443-499 | one READ command stays on one track side and, if it succeeds, extends what the buffer holds |
| `Floppy.AfterError` | u-boot-2019.07-rc4/cmd/fdc.c:467-490 | the two retry counters together count the errors, and give up at the 25th and not before if seeking works |
| `Floppy.Verdict` | u-boot-2019.07-rc4/cmd/fdc.c:442-525 | success or failure is decided by the errors among as many commands as there are chunks and 24 more |
| `Floppy.FdcReadData` | u-boot-2019.07-rc4/cmd/fdc.c:405-526 | success means that the buffer holds exactly the blocks asked for and the block number is past them; every READ keeps to one side; for every controller the call succeeds if and only if some number of READs with at most 24 errors among them gets all chunks across and every READ, seek and recalibration on the way is obeyed |
| `Floppy.ReadNext` | u-boot-2019.07-rc4/cmd/fdc.c:442-507 | one READ command of the loop extends what the buffer holds or leaves it as it was |
| `Floppy.PlanStep` | u-boot-2019.07-rc4/cmd/fdc.c:494-507 | after a chunk the request is done or has one chunk less to come, from the first sector of a track side |
| `Floppy.OnError` | u-boot-2019.07-rc4/cmd/fdc.c:467-490 | a transfer error goes on with both counters ahead, or fails exactly when 25 errors were too many |
| `Floppy.Turn` | u-boot-2019.07-rc4/cmd/fdc.c:442-521 | one turn of the loop keeps position, buffer and counters in step |
| `Floppy.Extend` | u-boot-2019.07-rc4/cmd/fdc.c:452-493 | a transfer that goes on where the buffer ends adds exactly its bytes, and a fault keeps what was there |
| `Floppy.GivesUp` | u-boot-2019.07-rc4/cmd/fdc.c:405-526 | a refused command, a 25th error, and a seek or recalibration that fails each settle that the controller cannot get the chunks across |
| `Floppy.SectSizes` | u-boot-2019.07-rc4/cmd/fdc.c:416-416 | the sizes of the four usual sector codes |
| `SRecord.HexAllReads` | u-boot-2019.07-rc4/common/s_record.c:155-178 | every byte of hexadecimal text reads back |
| `SRecord.WidthIs` | u-boot-2019.07-rc4/cmd/load.c:309-309 | the address is printed with eight digits if and only if it is below 2^32, and with at most sixteen |
| `SRecord.LineSum` | u-boot-2019.07-rc4/cmd/load.c:341-353 | below 2^32 the text is that of length, address, data and checksum octets, which sum to 255 modulo 256 |
| `SRecord.CountInRangeIff` | u-boot-2019.07-rc4/common/s_record.c:38-83 | the count that the decoder computes is a length, that of the data, if and only if the length byte covers address and checksum |
| `SRecord.LineDecodesIff` | u-boot-2019.07-rc4/common/s_record.c:13-153 | a printed record decodes to its type, address and data if and only if the address is below 2^32 |
| `SRecordIO.Take` | u-boot-2019.07-rc4/cmd/load.c:326-334 | one byte moves from memory into the record |
| `SRecordIO.ChunksTile` | u-boot-2019.07-rc4/cmd/load.c:313-366 | records of 1 to 16 bytes tile the memory range in order and hold what memory holds there |
| `SRecordIO.LineFitsIff` | u-boot-2019.07-rc4/cmd/load.c:317-353 | a record with newline and NUL fits the 48-byte buffer if and only if its address digits, at least eight, and twice its data bytes are at most 40 |
| `SRecordIO.NineDigitsTooLong` | u-boot-2019.07-rc4/cmd/load.c:317-353 | sixteen bytes at 2^32 make 49 characters |
| `SRecordIO.SaveFitsIff` | u-boot-2019.07-rc4/cmd/load.c:313-366 | all records of a save fit if and only if its last full record starts below 2^32 and what is left behind it fits |
| `SRecordIO.BuildRecord` | u-boot-2019.07-rc4/cmd/load.c:337-353 | the text assembled from the running hexadecimal data and checksum is the record of those data, at every address |
| `SRecordIO.SaveRecords` | u-boot-2019.07-rc4/cmd/load.c:325-362 | the loop over bytes writes the records of all chunks in order |
| `SRecordIO.SaveSerial` | u-boot-2019.07-rc4/cmd/load.c:313-366 | header, one record for each chunk of memory, trailer |
| `SRecordLoad.PlainLineReads` | u-boot-2019.07-rc4/cmd/load.c:200-235 | a line that fits is read whole |
| `SRecordLoad.PutExactly` | u-boot-2019.07-rc4/cmd/load.c:164-166 | storing changes exactly the addresses stored to |
| `SRecordLoad.ReadRecordLoop` | u-boot-2019.07-rc4/cmd/load.c:200-235 | the character loop reads up to the line end, the cancel character or the limit |
| `SRecordLoad.LoadSerial` | u-boot-2019.07-rc4/cmd/load.c:128-198 | the loop over records has the effect of processing the lines one by one, with every error and end code, and a copy of a negative count as a case of its own |
| `SRecordLoad.OverrunIff` | u-boot-2019.07-rc4/cmd/load.c:148-166 | a data record is copied with a negative count if and only if its length byte is smaller than address and checksum need |
| `SRecordLoad.EmptyRecordOverruns` | u-boot-2019.07-rc4/cmd/load.c:148-166 | the record `S1000000FF` is such a one |
| `SRecordKinds.RecordHandled` | u-boot-2019.07-rc4/common/s_record.c:45-140 | records of every type with the address width of the type and the right checksum: S1, S2 and S3 are stored, S7, S8 and S9 end the download with their address as entry, S0 and S5 change nothing |
| `SRecordKinds.OtherRefused` | u-boot-2019.07-rc4/common/s_record.c:79-81 | any other type aborts the download |
| `SRecordKinds.LineEnds` | u-boot-2019.07-rc4/cmd/load.c:200-235 | a line ends at a carriage return or a newline or after 516 characters; a NUL or ctrl-C cancels |
| `SRecordKinds.NoRecord` | u-boot-2019.07-rc4/common/s_record.c:25-33 | a line without the letter S changes nothing |
| `SRecordKinds.WrongChecksum` | u-boot-2019.07-rc4/common/s_record.c:143-150 | a record with any checksum but the right one aborts the download |
| `SRecordRoundTrip.ConcatLines` | u-boot-2019.07-rc4/cmd/load.c:200-235 | short plain lines are read as those lines |
| `SRecordRoundTrip.DataProcessed` | u-boot-2019.07-rc4/cmd/load.c:141-171 | a run of data lines stores its records |
| `SRecordRoundTrip.ChunksStored` | u-boot-2019.07-rc4/cmd/load.c:152-171 | storing the records of a memory range stores that range |
| `SRecordRoundTrip.SavedScript` | u-boot-2019.07-rc4/cmd/load.c:200-235 | at every address the loader reads exactly the lines that the writer wrote |
| `SRecordRoundTrip.StoredSize` | u-boot-2019.07-rc4/cmd/load.c:167-176 | the size computed from lowest and highest address is the number of bytes, and 2 for none |
| `SRecordRoundTrip.SavedLoads` | u-boot-2019.07-rc4/cmd/load.c:128-198 | round trip: loading what was saved puts the bytes at address plus offset, changes no other address, and reports the count; for a count of zero it reports two bytes |
| `SRecordExact.HighDecodes` | u-boot-2019.07-rc4/common/s_record.c:13-153 | from 2^32 on a record is refused or taken for one of the same length at an address of eight digits |
| `SRecordExact.SavedLoadsIff` | u-boot-2019.07-rc4/cmd/load.c:128-198 | the round trip holds on top of every memory if and only if the last record starts below 2^32 |
| `CText.CutParts` | u-boot-2019.07-rc4/lib/string.c:440-453 | token and rest with the separator between them are the string, and the token holds no separator |
| `CText.StrSep` | u-boot-2019.07-rc4/lib/string.c:440-453 | the loop cuts at the first separator |
| `CText.HexReads` | u-boot-2019.07-rc4/lib/strto.c:127-144 | every number printed in hexadecimal reads back |
| `CText.HexPadReads` | u-boot-2019.07-rc4/lib/strto.c:33-51 | so does one with leading zeros |
| `CText.StrToUll` | u-boot-2019.07-rc4/lib/strto.c:17-51 | the value modulo 2^64 of the longest run of digits behind the prefix, in the base given or that the prefix selects, and what follows it |
| `CText.PrefixedNumber` | u-boot-2019.07-rc4/lib/strto.c:17-51 | a hexadecimal number with its prefix is read whole, whatever follows it |
| `CText.HexLength` | u-boot-2019.07-rc4/lib/strto.c:127-144 | a number has at most n digits if and only if it is below 16^n |
| `CText.DecNumber` | u-boot-2019.07-rc4/lib/strto.c:17-30 | in base 0 a decimal number without leading zeros is read whole |
| `CText.OctalNumber` | u-boot-2019.07-rc4/lib/strto.c:17-30 | with a leading zero it is octal |
| `CText.UpperPrefix` | u-boot-2019.07-rc4/lib/strto.c:17-30 | the hexadecimal prefix may be written in either case |
| `GptFields.ExtractVal` | u-boot-2019.07-rc4/cmd/gpt.c:95-122 | the loop over comma-separated fields finds the value of the first field with the key |
| `GptFields.FoundKey` | u-boot-2019.07-rc4/cmd/gpt.c:132-156 | the loop finds a bare key |
| `GptFields.ValueOfJoined` | u-boot-2019.07-rc4/cmd/gpt.c:95-122 | for every list of fields, extracting from its text is looking the key up in the list |
| `GptFields.NoBareKey` | u-boot-2019.07-rc4/cmd/gpt.c:132-156 | a field with a value is never taken for a bare key |
| `GptFields.CutValue` | u-boot-2019.07-rc4/cmd/gpt.c:95-122 | a value always comes back cut at its first comma, so it comes back whole if and only if it has none |
| `GptText.CreateEntry` | u-boot-2019.07-rc4/cmd/gpt.c:277-297 | the pieces of one entry appended one by one in the buffer of the caller are the text of its four fields, terminated, if that fits; else the buffer is overrun |
| `GptText.CreateGptPartitionsList` | u-boot-2019.07-rc4/cmd/gpt.c:265-300 | the buffer of the caller holds the text of guid and entries with its terminator if and only if that is no longer than the buffer; else it is overrun |
| `GptText.UStrToUll` | u-boot-2019.07-rc4/lib/strto.c:106-125 | the number with its suffix, whose meaning `ScaledIs` states |
| `GptText.ReadPart` | u-boot-2019.07-rc4/cmd/gpt.c:451-536 | one partition from its entry, or the error of the first missing or oversized field |
| `GptText.CountPieces` | u-boot-2019.07-rc4/cmd/gpt.c:431-437 | the number of entries from the separators counted |
| `GptText.ReadParts` | u-boot-2019.07-rc4/cmd/gpt.c:431-540 | the array filled in place is the list of all partitions, one for each entry counted |
| `GptText.SetGptInfo` | u-boot-2019.07-rc4/cmd/gpt.c:372-550 | layout or error code of the text, for all texts, whose meaning `LayoutSaid`, `LayoutComesBackIff` and the refusals state |
| `GptRoundTrip.EntryReads` | u-boot-2019.07-rc4/cmd/gpt.c:451-536 | the text of one partition reads back as its start, size, name and uuid |
| `GptRoundTrip.EndedReads` | u-boot-2019.07-rc4/cmd/gpt.c:427-537 | so does a list of entries of any length |
| `GptRoundTrip.EmptyLayoutRefused` | u-boot-2019.07-rc4/cmd/gpt.c:424-425 | the text written for no partitions is refused |
| `GptRoundTrip.GuidReads` | u-boot-2019.07-rc4/cmd/gpt.c:398-425 | the guid is found whatever follows it, and what follows the first semicolon alone decides partitions or error |
| `GptRoundTrip.LayoutComesBack` | u-boot-2019.07-rc4/cmd/gpt.c:372-550 | `set_gpt_info` on the text of any non-empty list of partitions, of up to 7665 characters and whoever wrote it, whose names and uuids hold no comma or semicolon and refer to no set variable: guid, count and every start, size, name and uuid come back; the bootable flag is not carried |
| `GptExact.TrimmedPieces` | u-boot-2019.07-rc4/cmd/gpt.c:427-437 | a text that ends with a semicolon keeps its number of entries if and only if the reader looks at all of it |
| `GptExact.LayoutComesBackIff` | u-boot-2019.07-rc4/cmd/gpt.c:372-550 | about the reader alone: such a text, from wherever, is read as its layout if and only if its entries take at most 7665 characters |
| `GptExact.NameRead` | u-boot-2019.07-rc4/cmd/gpt.c:489-501 | the name read is what stands before the first comma, with a set variable expanded |
| `GptExact.NamesComeBackIff` | u-boot-2019.07-rc4/cmd/gpt.c:372-550 | about the reader alone: such a text is read as its layout if and only if no name holds a comma or a semicolon or has all of 32 characters, where neither names nor their parts before a comma refer to set variables |
| `GptExact.SemicolonRefused` | u-boot-2019.07-rc4/cmd/gpt.c:451-460 | every single entry whose name holds a semicolon before any comma is refused with -4 |
| `GptExact.FiftyNineComeBack` | u-boot-2019.07-rc4/cmd/gpt.c:372-550 | about the reader alone: texts of up to 59 partitions are short enough for it whatever the lengths of their fields |
| `GptExact.SixtyDoNot` | u-boot-2019.07-rc4/cmd/gpt.c:427-437 | about the reader alone: texts of sixty or more with names, uuids and numbers of full length, which the command itself cannot write, are never read as their layout |
| `GptExact.NoGuidRefused` | u-boot-2019.07-rc4/cmd/gpt.c:391-412 | no text gives -1 and a text without the guid -2 |
| `GptExact.NothingBehindRefused` | u-boot-2019.07-rc4/cmd/gpt.c:420-423 | a guid with no semicolon behind it gives -EINVAL |
| `GptExact.EntryRefused` | u-boot-2019.07-rc4/cmd/gpt.c:451-511 | an entry without a mandatory field, or with a name of more than 31 or a uuid of more than 36 characters, gives -4 |
| `GptExact.CountWraps` | u-boot-2019.07-rc4/cmd/gpt.c:431-437 | there is one partition for each entry, and the count that is returned is their number modulo 256 |
| `GptAmounts.ScaledIs` | u-boot-2019.07-rc4/lib/strto.c:106-125 | for every number text: its value times 1024, 1048576 or 1073741824 for a K, M or G of either case behind it, and times 1 else, modulo 2^64 |
| `GptAmounts.DecAmount` | u-boot-2019.07-rc4/lib/strto.c:106-125 | so for every decimal number |
| `GptAmounts.HexAmount` | u-boot-2019.07-rc4/lib/strto.c:106-125 | and every hexadecimal one with its prefix |
| `GptAmounts.ExpandMeans` | u-boot-2019.07-rc4/cmd/gpt.c:36-83 | a reference to a variable that is set stands for its value, and every other text for itself |
| `GptAmounts.EntrySaid` | u-boot-2019.07-rc4/cmd/gpt.c:451-536 | an entry as the documentation writes them, with amounts, references, an optional start and an optional `bootable`, is read as the partition it says, with start and size in blocks |
| `GptAmounts.LayoutSaid` | u-boot-2019.07-rc4/cmd/gpt.c:372-550 | so is a whole layout of such entries, with or without a semicolon at its end |
| `GptAmounts.SixtyMiB` | u-boot-2019.07-rc4/doc/README.gpt:157-158 | `60MiB` is 62914560 bytes |
| `GptRename.FitsIff` | u-boot-2019.07-rc4/cmd/gpt.c:158-176 | the text with its terminator fits into the bytes that `calc_parts_list_len` counts for it if and only if the lengths of guid, names, uuids and hexadecimal digits add up to at most 37 plus 90 for each partition |
| `GptRename.NinetyFit` | u-boot-2019.07-rc4/cmd/gpt.c:158-176 | a bound that can be checked entry by entry: partitions whose name, uuid and digits take at most 90 characters each always fit |
| `GptRename.WidestOverruns` | u-boot-2019.07-rc4/cmd/gpt.c:676-684 | the failing input: the text of one partition with a full name, a full uuid and start and size of 2^60 bytes can be read back but takes 176 bytes, and 168 are allocated |
| `GptRename.LargeOverrun` | u-boot-2019.07-rc4/cmd/gpt.c:676-684 | two or more partitions with full names and uuids and start and size of at least 2^44 bytes never fit |
| `GptRename.FittingComesBackIff` | u-boot-2019.07-rc4/cmd/gpt.c:676-706 | of 1 to 64 partitions whose text fits, exactly those layouts come back all of whose names are shorter than 32 characters and hold no comma or semicolon |
| `GptRename.WriteAndRead` | u-boot-2019.07-rc4/cmd/gpt.c:684-706 | writing into the buffer and reading back gives the layout or error of the text if it fits, and an overrun else |
| `GptRename.SwapNames` | u-boot-2019.07-rc4/cmd/gpt.c:714-728 | the loop exchanges both names everywhere in place and accepts exactly if they differ and occur equally often, at least once |
| `GptRename.RenamePart` | u-boot-2019.07-rc4/cmd/gpt.c:745-753 | the walk along the list renames the partition of that number and no other |
| `GptRename.ChangeNames` | u-boot-2019.07-rc4/cmd/gpt.c:708-754 | the names of the list after either command, or its error code |
| `GptRename.DoRenameGptParts` | u-boot-2019.07-rc4/cmd/gpt.c:650-775 | write, read, change names, write again in the same buffer, read: the outcome is the one that the equivalences below speak of, for all partitions and both commands |
| `GptRename.SwapKeepsRoom` | u-boot-2019.07-rc4/cmd/gpt.c:714-728 | conservation: a swap in pairs keeps the length of the whole text, whatever the lengths of the two names, so it never needs more room |
| `GptRename.SwapTwice` | u-boot-2019.07-rc4/cmd/gpt.c:714-723 | a second swap undoes the first |
| `GptRename.SwapIff` | u-boot-2019.07-rc4/cmd/gpt.c:650-775 | a swap leads to the layout with the names exchanged and all else as it was if and only if the old text fits, the names are paired and no name holds a separator or has 32 characters |
| `GptRename.RenamedFitsIff` | u-boot-2019.07-rc4/cmd/gpt.c:729-756 | after a renaming the text fits if and only if the same sum with the new name for the old stays within 37 plus 90 for each partition |
| `GptRename.RenameIff` | u-boot-2019.07-rc4/cmd/gpt.c:650-775 | a renaming leads to the layout with that one name changed if and only if both texts fit and the new name is shorter than 32 characters and holds no separator; a name of 32 characters passes the check of the command but not the reader |
| `Octets.WordBack` | u-boot-2019.07-rc4/cmd/fdt.c:964-966 | printing a cell and storing it big-endian gives its bytes back |
| `FdtText.PrintCells` | u-boot-2019.07-rc4/cmd/fdt.c:957-967 | the loop prints the cells with blanks between them |
| `FdtText.PrintBytes` | u-boot-2019.07-rc4/cmd/fdt.c:969-979 | the loop prints the bytes with blanks between them |
| `FdtText.PrintData` | u-boot-2019.07-rc4/cmd/fdt.c:957-980 | cells if the length is a multiple of four, else bytes |
| `FdtText.PutCell` | u-boot-2019.07-rc4/cmd/fdt.c:820-824 | a number sets four bytes big-endian, a question mark keeps them |
| `FdtText.ReadStrings` | u-boot-2019.07-rc4/cmd/fdt.c:866-879 | strings go in with their terminators |
| `FdtText.ReadCells` | u-boot-2019.07-rc4/cmd/fdt.c:806-843 | the loop over arguments edits the buffer exactly as the cells read so far say, whether it then succeeds, fails or reads past the last argument |
| `FdtText.ReadBytes` | u-boot-2019.07-rc4/cmd/fdt.c:844-865 | the same for bytes |
| `FdtText.FdtParseProp` | u-boot-2019.07-rc4/cmd/fdt.c:796-881 | exactly the parsed bytes are edited and the length is theirs, whether the result is 0, 1 or a read past the last argument |
| `FdtRoundTrip.Within` | u-boot-2019.07-rc4/cmd/fdt.c:809-817 | a piece of text without blanks lies within one argument, however the text was split |
| `FdtRoundTrip.CellsRead` | u-boot-2019.07-rc4/cmd/fdt.c:809-843 | the cell form of any number of cells, split into arguments at any of its blanks, sets exactly its bytes |
| `FdtRoundTrip.BytesRead` | u-boot-2019.07-rc4/cmd/fdt.c:849-865 | so does the byte form |
| `FdtRoundTrip.ValueComesBack` | u-boot-2019.07-rc4/cmd/fdt.c:796-866 | round trip: parsing the printed form of any value, however split at its blanks into arguments, sets exactly the bytes of the value |
| `FdtRoundTrip.ValueInBuffer` | u-boot-2019.07-rc4/cmd/fdt.c:796-866 | after those edits the buffer begins with the value and is unchanged behind it |
| `FdtRoundTrip.FormIs` | u-boot-2019.07-rc4/cmd/fdt.c:957-980 | values of whole cells are printed as cells of eight digits and all others as bytes of two, each at its place |
| `FdtExact.CellAdvances` | u-boot-2019.07-rc4/cmd/fdt.c:819-833 | the conversion of a cell moves on if and only if it stands at a question mark or a decimal digit |
| `FdtExact.CellsPastEndIff` | u-boot-2019.07-rc4/cmd/fdt.c:809-843 | the cell loop reads past the last argument if and only if every argument is cells and the blanks behind them to its end |
| `FdtExact.BytesPastEndIff` | u-boot-2019.07-rc4/cmd/fdt.c:849-865 | the byte loop does if and only if every word between blanks of every argument is hexadecimal digits, with or without a prefix |
| `FdtExact.PastEndIff` | u-boot-2019.07-rc4/cmd/fdt.c:796-881 | the same for the whole command, whose string form never does |
| `FdtExact.OpenCellPastEnd` | u-boot-2019.07-rc4/cmd/fdt.c:809-817 | for example for the one argument `<1` |
| `FdtExact.ClosedStaysWithin` | u-boot-2019.07-rc4/cmd/fdt.c:796-881 | a closing character in any one argument keeps the parser within its arguments |
| `FdtCells.CellListRead` | u-boot-2019.07-rc4/cmd/fdt.c:809-843 | any list of cells in decimal, hexadecimal or as question marks, split into arguments at any of its blanks, sets the four big-endian bytes of each number and keeps those of each question mark |
| `FdtCells.EditAt` | u-boot-2019.07-rc4/cmd/fdt.c:824-829 | cell i is at bytes 4i to 4i+3 |
| `FdtCells.StringAt` | u-boot-2019.07-rc4/cmd/fdt.c:866-879 | by position: the characters of every argument stand behind those of the ones before it, each with a zero behind |
| `Eeprom.PageInBlock` | u-boot-2019.07-rc4/cmd/eeprom.c:105-126 | a page of at most 256 bytes is placed by the offset in the 256-byte block alone |
| `Eeprom.ChunkFits` | u-boot-2019.07-rc4/cmd/eeprom.c:105-126 | every chunk has 1 to 128 bytes and crosses neither a page nor a block |
| `Eeprom.ChunkFitsIff` | u-boot-2019.07-rc4/cmd/eeprom.c:105-126 | chunks never leave their page if and only if a page has at most 256 bytes |
| `Eeprom.Chip.WriteThenRead` | u-boot-2019.07-rc4/cmd/eeprom.c:191-217 | reading a range back returns what was written to it |
| `Eeprom.OrIsSum` | u-boot-2019.07-rc4/cmd/eeprom.c:100-100 | the or of two numbers without a common bit is their sum |
| `Eeprom.AddressUnique` | u-boot-2019.07-rc4/cmd/eeprom.c:83-103 | while the block number keeps to bits that the device address leaves clear, two offsets share an address on the bus only if they are equal |
| `Eeprom.NextAddress` | u-boot-2019.07-rc4/cmd/eeprom.c:83-103 | inside a 256-byte block the register counts up and the device octet stays |
| `Eeprom.Chip.WriteBlock` | u-boot-2019.07-rc4/cmd/eeprom.c:128-160 | a bus write through a register counter that wraps inside the page changes exactly the cells of its length from its address on |
| `Eeprom.Chip.ReadBlock` | u-boot-2019.07-rc4/cmd/eeprom.c:128-160 | the same for reading inside a 256-byte block |
| `Eeprom.Chip.WriteChunk` | u-boot-2019.07-rc4/cmd/eeprom.c:174-182 | a chunk addressed on the bus is that chunk of flat memory written, and no other offset changes |
| `Eeprom.Chip.ReadChunk` | u-boot-2019.07-rc4/cmd/eeprom.c:174-182 | the same for reading |
| `Eeprom.Chip.Rw` | u-boot-2019.07-rc4/cmd/eeprom.c:162-189 | refinement: all chunks of the request are tried, and a transfer over the bus is a flat memory write or read of exactly the chunks that succeed; the result is that of the last chunk only |
| `Eeprom.ChunkLongest` | u-boot-2019.07-rc4/cmd/eeprom.c:105-126 | a chunk is as long as page, block, bus and request allow |
| `Eeprom.Chip.RwChunk` | u-boot-2019.07-rc4/cmd/eeprom.c:128-160 | one chunk is moved if the bus lets it through, and nothing else changes |
| `ArmFlashCrc.CarryReduces` | u-boot-2019.07-rc4/cmd/armflash.c:47-54 | adding with end-around carry is addition modulo 2^32-1 on representatives 1 to 2^32-1, and 0 for 0 |
| `ArmFlashCrc.ComputeCrc` | u-boot-2019.07-rc4/cmd/armflash.c:37-56 | the loop returns the complement of the reduced sum of the words, and 0 for a length that is no multiple of four |
| `ArmFlashCrc.OrderFree` | u-boot-2019.07-rc4/cmd/armflash.c:37-56 | the order of the words does not matter |
| `ArmFlashCrc.ChecksIff` | u-boot-2019.07-rc4/cmd/armflash.c:136-141 | a block yields zero if and only if one word, in any position, is the complement of the sum of the others, in either representation of zero |
| `ArmFlashCrc.ChangeNoticed` | u-boot-2019.07-rc4/cmd/armflash.c:136-141 | no change of one word goes unnoticed except between all zeros and all ones |
| `Fuzzer.FuzzmeInstrumented` | fuzzing-theory/coverage_guided_fuzzer.py:7-25 | records the lines of the level reached and crashes exactly on inputs that begin with "bug" |
| `Fuzzer.Loop.Iterate` | fuzzing-theory/coverage_guided_fuzzer.py:64-84 | a crash only stops the loop, known coverage changes nothing, new coverage adds exactly this test and its lines |
| `Fuzzer.Loop.Fuzz` | fuzzing-theory/coverage_guided_fuzzer.py:60-84 | every sequence of possible choices leads the loop through the states that the invariants and the distance to the crash are proved of |
| `Fuzzer.NewIff` | fuzzing-theory/coverage_guided_fuzzer.py:78-81 | coverage is new if and only if no test of that level is in the suite |
| `Fuzzer.NextKeeps` | fuzzing-theory/coverage_guided_fuzzer.py:70-84 | every iteration keeps the invariant: total coverage is the union of the coverage of the suite, no two tests cover the same, none crashes |
| `Fuzzer.RunKeeps` | fuzzing-theory/coverage_guided_fuzzer.py:60-84 | so does every run |
| `Fuzzer.FuzzerInvariant` | fuzzing-theory/coverage_guided_fuzzer.py:60-84 | in every reachable state of the program the invariant holds and the suite has at most four tests |
| `Fuzzer.CrashWithinThree` | fuzzing-theory/coverage_guided_fuzzer.py:28-84 | from every state that has not crashed, some choice of at most three further iterations crashes |
| `Fuzzer.NoSooner` | fuzzing-theory/coverage_guided_fuzzer.py:28-84 | a suite whose tests all have k wrong bytes among the first three is at least k iterations from a crash |
| `Fuzzer.ThreeNeeded` | fuzzing-theory/coverage_guided_fuzzer.py:28-84 | the bound of three is met: from the start, a first test of three zeros leads to a state from which no run of fewer than three iterations crashes |

## Left out

- Kermit: the write pointer does not wrap around the address space; `os_data_state` is always 0 in this configuration and is not modelled.
- Kermit: characters of a packet that is still incomplete when the input ends are covered by `PrefixSafety` and `KRecv`, not by the book.
- LongPacketScans: stops at 21278 data bytes, the most that two length characters with values below 224 express.
- NamesComeBackIff: is for texts within `MAX_STR_PART` characters, since a longer text is cut at a place that the names decide.
- RenameIff: is for tables whose names hold no separator before the renaming.
- DoRenameGptParts: what an overrun does to memory is not modelled, the outcome is `Overrun`; the partition number is a parameter, not the text it is read from; the type string behind a name of 32 characters, whose first character its terminator overwrites, is not modelled.
- FdtParseProp: asks for a buffer with room for the bytes that the text sets.
- ComputeCrc: is for lengths below 2^31, since the loop variable is an `int` and overflows beyond.
- FillSectRanges: addresses are natural numbers, so `b_end + 1` never wraps.
- SavedLoadsIff: is for ranges that end at or below 2^64, before and after the offset is added.
- Enumerate: does not model `di->type` and the block count fields.
- LoadSerial: what a copy of a negative count does to memory is not modelled; the outcome is `Overrun`.
- PrintMemTable: the rows carry the descriptors; the names of types and the key of attributes behind the table are not modelled.
- The search for the EFI memory map entry and its header check in `do_efi_mem`.
- Flash: hardware protection, the progress output and the single-bank and partition forms of the commands.
- Floppy: controller registers, motor, timeouts, result bytes and interrupt state; a controller is an oracle for each command.
- EEPROM: write-enable, delays and the layout commands. A chip that counts across 256-byte blocks when reading is modelled as one that does not.
- GPT: reading the table from disk and writing it; running out of memory.
- Device tree: the string branch of `print_data`, whose choice can depend on the byte after the value, and the tree itself.
- Console echo, `ctrlc`, delays, and the ymodem and flash-write paths of the load commands.
- The footer parsing of `cmd/armflash.c` around its checksum.
- Printing in the fuzzing loop, and the two simpler fuzzers, whose loops are parts of this one.
- The wrapper commands of U-Boot, which pass their arguments on to drivers and file systems.
- The harnesses of the other training projects, which call external libraries, and generated documentation.
